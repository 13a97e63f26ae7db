/** What becomes of tasks in any run: how their states change, what a fork begins and an exit ends,
    and how long a counter lasts. */
module SchedulerLives {
  import opened BitOps
  import opened SchedulerModel
  import opened SchedulerRuns

  // States

  /** What an event makes of task i's state: the current task exits or goes to sleep by its own call,
      and a tick that completes a second wakes a task whose last second it was. */
  function StateAfter(s: Sched, e: Event, i: nat): State
    requires i < |s.tasks| <= |s.wait|
  {
    if i == s.current && e.ExitEvent? then Zombie
    else if i == s.current && e.SleepEvent? then Wait
    else if e.TickEvent? && s.tasks[i].state.Wait? && s.frq == 9 && s.wait[i] == 1 then Running
    else s.tasks[i].state
  }

  /** Nothing else changes a state, and nothing at all a priority. */
  lemma StatesChange(s: Sched, e: Event, i: nat)
    requires Inv(s) && Allowed(s, e) && i < |s.tasks|
    ensures s.current < |s.tasks| <= |s.wait| && i < |Step(s, e).tasks|
    ensures Step(s, e).tasks[i].state == StateAfter(s, e, i)
    ensures Step(s, e).tasks[i].priority == s.tasks[i].priority
  {
    hide Yield, Inv;
    CurrentRuns(s);
    match e
    case TickEvent => TickStates(s, i);
    case YieldEvent => YieldKeeps(s);
    case ForkEvent(_) =>
    case ExitEvent => ExitStates(s, i);
    case SleepEvent(n) => SleepStates(s, n, i);
  }

  lemma TickStates(s: Sched, i: nat)
    requires Inv(s) && i < |s.tasks|
    ensures s.current < |s.tasks| <= |s.wait| && i < |Tick(s).tasks|
    ensures Tick(s).tasks[i].state == StateAfter(s, TickEvent, i) && Tick(s).tasks[i].priority == s.tasks[i].priority
  {
    hide Yield, SameExcess, Wakeful, WakeUp;
    WaitKeeps(s);
    var u := UpdateWait(s);
    CurrentRuns(u);
    YieldKeeps(u);
  }

  lemma ExitStates(s: Sched, i: nat)
    requires Inv(s) && OtherRuns(s) && i < |s.tasks|
    ensures s.current < |s.tasks| <= |s.wait| && i < |Exit(s).tasks|
    ensures Exit(s).tasks[i].state == StateAfter(s, ExitEvent, i) && Exit(s).tasks[i].priority == s.tasks[i].priority
  {
    hide Yield, SameExcess, Wakeful;
    var j :| 0 <= j < |s.tasks| && j != s.current && s.tasks[j].state.Running?;
    var z := SetState(s, Zombie);
    assert z.tasks[j].state.Running?;
    YieldKeeps(z);
  }

  lemma SleepStates(s: Sched, n: int, i: nat)
    requires Inv(s) && OtherRuns(s) && i < |s.tasks|
    ensures s.current < |s.tasks| <= |s.wait| && i < |Sleep(s, n).tasks|
    ensures Sleep(s, n).tasks[i].state == StateAfter(s, SleepEvent(n), i)
    ensures Sleep(s, n).tasks[i].priority == s.tasks[i].priority
  {
    hide Yield, SameExcess, Wakeful;
    var j :| 0 <= j < |s.tasks| && j != s.current && s.tasks[j].state.Running?;
    var z := SetState(s, Wait).(wait := s.wait[s.current := n]);
    assert z.tasks[j].state.Running?;
    YieldKeeps(z);
  }

  // Exits

  lemma StepInRun(states: seq<Sched>, events: seq<Event>, k: nat)
    requires Trace(states, events) && k < |events|
    ensures Inv(states[k]) && Inv(states[k + 1]) && Allowed(states[k], events[k])
    ensures states[k].current < |states[k].tasks| <= |states[k].wait| && states[k + 1] == Step(states[k], events[k])
  {
    hide Inv, Step, Wakeful, ExcessAfter;
    RunKeeps(states, events, k);
    assert Follows(states[k], events[k], states[k + 1]);
    FollowKeeps(states[k], events[k], states[k + 1]);
  }

  lemma CurrentIsRunning(s: Sched)
    requires Inv(s)
    ensures s.current < |s.tasks| && s.tasks[s.current].state.Running?
  {}

  /** A zombie stays one, and never runs again. */
  lemma {:induction false} ZombieForGood(states: seq<Sched>, events: seq<Event>, t: nat, j: nat, k: nat)
    requires Trace(states, events) && j <= k < |states| && t < |states[j].tasks| && states[j].tasks[t].state.Zombie?
    ensures t < |states[k].tasks| && states[k].tasks[t].state.Zombie? && states[k].current != t
  {
    hide Inv, Step, Allowed, Wakeful, Follows;
    RunKeeps(states, events, k);
    CurrentIsRunning(states[k]);
    if j < k {
      ZombieForGood(states, events, t, j, k - 1);
      StepInRun(states, events, k - 1);
      StatesChange(states[k - 1], events[k - 1], t);
    }
  }

  /** In every run a task that exits is a zombie from then on, and never runs again. */
  lemma ExitsForGood(states: seq<Sched>, events: seq<Event>, j: nat, k: nat)
    requires Trace(states, events) && j < k < |states| && events[j].ExitEvent?
    ensures var t := states[j].current;
            t < |states[k].tasks| && states[k].tasks[t].state.Zombie? && states[k].current != t
  {
    hide Inv, Step, Allowed, Wakeful, Follows;
    StepInRun(states, events, j);
    StatesChange(states[j], events[j], states[j].current);
    ZombieForGood(states, events, states[j].current, j + 1, k);
  }

  // Forks

  /** Priorities are for ever. */
  lemma {:induction false} PriorityStays(states: seq<Sched>, events: seq<Event>, t: nat, j: nat, k: nat)
    requires Trace(states, events) && j <= k < |states| && t < |states[j].tasks|
    ensures t < |states[k].tasks| && states[k].tasks[t].priority == states[j].tasks[t].priority
  {
    hide Inv, Step, Allowed, Follows;
    if j < k {
      PriorityStays(states, events, t, j, k - 1);
      StepInRun(states, events, k - 1);
      StatesChange(states[k - 1], events[k - 1], t);
    }
  }

  /** A fork that finds a page changes no task there is; the new one runs with preemption disabled, its
      counter full, and has its parent's priority for good. */
  lemma ForkBegins(states: seq<Sched>, events: seq<Event>, j: nat, k: nat)
    requires Trace(states, events) && j < k < |states| && events[j] == ForkEvent(true)
    ensures var before, after, n := states[j], states[j + 1], |states[j].tasks|;
            && before.current < n == |after.tasks| - 1 && after.tasks[..n] == before.tasks && after.current == before.current
            && after.tasks[n].state.Running? && after.tasks[n].preemptCount == 1
            && after.tasks[n].counter == after.tasks[n].priority == before.tasks[before.current].priority
            && n < |states[k].tasks| && states[k].tasks[n].priority == before.tasks[before.current].priority
  {
    hide Inv, Allowed, Follows;
    StepInRun(states, events, j);
    PriorityStays(states, events, |states[j].tasks|, j + 1, k);
  }

  /** Booted with one task of priority 1, the kernel never has a task of another priority. */
  lemma {:induction false} AllPrioritiesOne(states: seq<Sched>, events: seq<Event>, k: nat)
    requires Trace(states, events) && states[0] == Boot() && k < |states|
    ensures forall i :: 0 <= i < |states[k].tasks| ==> states[k].tasks[i].priority == 1
  {
    hide Inv, Allowed, Follows, Step;
    if k > 0 {
      AllPrioritiesOne(states, events, k - 1);
      StepInRun(states, events, k - 1);
      NoMoreThanForked(states[k - 1], events[k - 1]);
      forall i | 0 <= i < |states[k].tasks|
        ensures states[k].tasks[i].priority == 1
      {
        if i < |states[k - 1].tasks| {
          StatesChange(states[k - 1], events[k - 1], i);
        } else {
          ForkBegins(states, events, k - 1, k);
        }
      }
    }
  }

  lemma NoMoreThanForked(s: Sched, e: Event)
    requires Inv(s) && Allowed(s, e)
    ensures s.current < |s.tasks| <= |s.wait|
    ensures |Step(s, e).tasks| == |s.tasks| + if e == ForkEvent(true) then 1 else 0
  {
    hide WakeUp, Pick, Ready;
  }

  // Counters

  /** A task's turn lasts as many ticks as its counter: with preemption enabled it runs on while the
      ticks are fewer. */
  lemma {:induction false} TurnLasts(states: seq<Sched>, events: seq<Event>, j: nat, n: nat)
    requires Trace(states, events) && j + n < |states| && forall i :: j <= i < j + n ==> events[i].TickEvent?
    requires states[j].current < |states[j].tasks|
    requires var t := states[j].tasks[states[j].current]; t.preemptCount == 0 && n < t.counter
    ensures states[j + n].current == states[j].current < |states[j + n].tasks|
    ensures states[j + n].tasks[states[j].current].counter == states[j].tasks[states[j].current].counter - n
    ensures states[j + n].tasks[states[j].current].preemptCount == 0
  {
    hide Inv, Allowed, Follows, Step;
    if n > 0 {
      TurnLasts(states, events, j, n - 1);
      StepInRun(states, events, j + n - 1);
      TickInTurn(states[j + n - 1]);
    }
  }

  lemma TickInTurn(s: Sched)
    requires Inv(s) && s.current < |s.tasks| <= |s.wait|
    requires s.tasks[s.current].counter > 1 && s.tasks[s.current].preemptCount == 0
    ensures Step(s, TickEvent).current == s.current < |Step(s, TickEvent).tasks|
    ensures Step(s, TickEvent).tasks[s.current].counter == s.tasks[s.current].counter - 1
    ensures Step(s, TickEvent).tasks[s.current].preemptCount == 0
  {
    hide Yield, WakeUp;
    WaitEach(s);
  }

  /** With the tick that uses the counter up the turn is over: the task runs on only if no other
      running task had anything left. */
  lemma TurnEnds(states: seq<Sched>, events: seq<Event>, j: nat, i: nat)
    requires Trace(states, events) && j < |events| && events[j].TickEvent?
    requires states[j].current < |states[j].tasks| && i < |states[j].tasks| && i != states[j].current
    requires var t := states[j].tasks[states[j].current]; t.preemptCount == 0 && t.counter <= 1
    requires states[j].tasks[i].state.Running? && states[j].tasks[i].counter > 0
    ensures states[j + 1].current != states[j].current
  {
    hide Inv, Allowed, Follows, Step;
    StepInRun(states, events, j);
    TickAtEnd(states[j], i);
  }

  lemma TickAtEnd(s: Sched, i: nat)
    requires Inv(s) && s.current < |s.tasks| <= |s.wait| && i < |s.tasks| && i != s.current
    requires s.tasks[s.current].counter <= 1 && s.tasks[s.current].preemptCount == 0
    requires s.tasks[i].state.Running? && s.tasks[i].counter > 0
    ensures Step(s, TickEvent).current != s.current
  {
    hide Yield, WakeUp;
    WaitKeeps(s);
    WaitEach(s);
    var u := UpdateWait(s);
    CurrentRuns(u);
    YieldElsewhere(u, i);
  }

  lemma YieldElsewhere(s: Sched, i: nat)
    requires Nearly(s) && i < |s.tasks| && i != s.current && s.tasks[i].state.Running? && s.tasks[i].counter > 0
    ensures Yield(s).current != s.current
  {
    hide Scan, Recharge, Ready, Pick;
    var used := s.tasks[s.current := s.tasks[s.current].(counter := 0)];
    var tasks := Preempt(used, s.current, 1);
    assert tasks[i].state.Running? && tasks[i].counter > 0;
    PickSound(tasks);
  }

  /** n recharges. */
  function Recharges(tasks: seq<Info>, n: nat): (r: seq<Info>)
    ensures |r| == |tasks|
    decreases n
  {
    if n == 0 then tasks else Recharges(Recharge(tasks), n - 1)
  }

  /** A task that does not run gets more with every recharge, up to one less than twice its priority:
      what is missing is halved each time. */
  lemma {:induction false} RechargesFill(tasks: seq<Info>, i: nat, n: nat)
    requires i < |tasks| && 0 <= tasks[i].counter < 2 * tasks[i].priority
    requires 2 * tasks[i].priority - tasks[i].counter <= Pow2(n)
    ensures Recharges(tasks, n)[i].counter == 2 * tasks[i].priority - 1
    decreases n
  {
    hide Recharge;
    if n > 0 {
      RechargesFill(Recharge(tasks), i, n - 1);
    }
  }
}
