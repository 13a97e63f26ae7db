/** No running task starves. */
module SchedulerFairness {
  import opened SchedulerModel
  import opened SchedulerRuns

  /** The running tasks' counters together: what is left of the recharge epoch. */
  function Counters(tasks: seq<Info>): int {
    if tasks == [] then 0
    else
      var t := tasks[|tasks| - 1];
      Counters(tasks[..|tasks| - 1]) + if t.state.Running? then t.counter else 0
  }

  /** The running tasks' priorities together. */
  function Priorities(tasks: seq<Info>): int {
    if tasks == [] then 0
    else
      var t := tasks[|tasks| - 1];
      Priorities(tasks[..|tasks| - 1]) + if t.state.Running? then t.priority else 0
  }

  /** A bound on the number of ticks and yields until task i runs. */
  function Patience(s: Sched, i: nat): int
    requires s.current < |s.tasks| && i < |s.tasks|
  {
    if s.current == i then 0
    else Counters(s.tasks) + (if s.tasks[s.current].counter == 0 then 1 else 0)
         + (if s.tasks[i].counter == 0 then Priorities(s.tasks) else 0)
  }

  lemma {:induction false} CountersSame(a: seq<Info>, b: seq<Info>)
    requires |a| == |b| && forall i :: 0 <= i < |a| ==> a[i].state == b[i].state && a[i].counter == b[i].counter
    ensures Counters(a) == Counters(b)
  {
    if |a| > 0 {
      CountersSame(a[..|a| - 1], b[..|b| - 1]);
    }
  }

  lemma {:induction false} PrioritiesSame(a: seq<Info>, b: seq<Info>)
    requires |a| == |b| && forall i :: 0 <= i < |a| ==> a[i].state == b[i].state && a[i].priority == b[i].priority
    ensures Priorities(a) == Priorities(b)
  {
    if |a| > 0 {
      PrioritiesSame(a[..|a| - 1], b[..|b| - 1]);
    }
  }

  lemma {:induction false} CountersUpdate(a: seq<Info>, i: nat, c: int)
    requires i < |a| && a[i].state.Running?
    ensures Counters(a[i := a[i].(counter := c)]) == Counters(a) + c - a[i].counter
  {
    var n, b := |a| - 1, a[i := a[i].(counter := c)];
    if i == n {
      assert b[..n] == a[..n];
    } else {
      CountersUpdate(a[..n], i, c);
      assert b[..n] == a[..n][i := a[i].(counter := c)];
    }
  }

  lemma {:induction false} CountersRecharged(a: seq<Info>)
    requires forall i :: 0 <= i < |a| && a[i].state.Running? ==> a[i].counter == 0
    ensures Counters(Recharge(a)) == Priorities(a)
  {
    if |a| > 0 {
      CountersRecharged(a[..|a| - 1]);
      assert Recharge(a)[..|a| - 1] == Recharge(a[..|a| - 1]);
    }
  }

  lemma {:induction false} CountersBounds(a: seq<Info>, i: nat)
    requires i < |a| && a[i].state.Running?
    requires forall j :: 0 <= j < |a| ==> 0 <= a[j].counter < 2 * a[j].priority
    ensures a[i].counter <= Counters(a) <= 2 * Priorities(a) - 2 * a[i].priority + a[i].counter
    decreases |a|
  {
    var n := |a| - 1;
    if i == n {
      CountersRange(a[..n]);
    } else {
      CountersBounds(a[..n], i);
    }
  }

  lemma {:induction false} CountersRange(a: seq<Info>)
    requires forall j :: 0 <= j < |a| ==> 0 <= a[j].counter < 2 * a[j].priority
    ensures 0 <= Counters(a) <= 2 * Priorities(a)
  {
    if |a| > 0 {
      CountersRange(a[..|a| - 1]);
    }
  }

  /** Giving up the processor uses up what was left of one's counter; a recharge only comes when
      all counters are used up. */
  lemma YieldProgress(s: Sched, i: nat)
    requires Inv(s) && Calm(s) && i < |s.tasks| && i != s.current && s.tasks[i].state.Running?
    ensures var s' := Yield(s); s'.current < |s'.tasks| == |s.tasks| && Patience(s', i) < Patience(s, i)
  {
    hide Pick, Ready, Scan, Counters, Priorities, Recharge;
    var used := s.tasks[s.current := s.tasks[s.current].(counter := 0)];
    var tasks := Preempt(used, s.current, 1);
    var s' := Yield(s);
    CountersUpdate(s.tasks, s.current, 0);
    CountersSame(used, tasks);
    PrioritiesSame(s.tasks, tasks);
    CountersBounds(s.tasks, s.current);
    assert tasks[i].state.Running?;
    PickSound(tasks);
    CountersSame(Ready(tasks), s'.tasks);
    PrioritiesSame(s.tasks, s'.tasks);
    if Ready(tasks) != tasks {
      CountersRecharged(tasks);
    }
  }

  /** Every tick or yield after which the same tasks run brings task i nearer to its turn. */
  lemma Progress(s: Sched, e: Event, i: nat)
    requires Inv(s) && Calm(s) && (e.TickEvent? || e.YieldEvent?)
    requires i < |s.tasks| && i != s.current && s.tasks[i].state.Running? && SameStates(s, Step(s, e))
    ensures var s' := Step(s, e); s'.current < |s'.tasks| == |s.tasks| && Patience(s', i) < Patience(s, i)
  {
    hide Yield, Counters, Priorities, WakeUp;
    YieldProgress(s, i);
    if e.TickEvent? {
      var u := UpdateWait(s);
      SameAsleep(s);
      YieldProgress(u, i);
      var t := s.tasks[s.current];
      CountersUpdate(s.tasks, s.current, t.counter - 1);
      PrioritiesSame(s.tasks, s.tasks[s.current := t.(counter := t.counter - 1)]);
    }
  }

  /** Nobody wakes in a tick that leaves all states as they were. */
  lemma SameAsleep(s: Sched)
    requires Inv(s) && Calm(s) && SameStates(s, Tick(s))
    ensures UpdateWait(s).tasks == s.tasks && Inv(UpdateWait(s)) && Calm(UpdateWait(s))
            && UpdateWait(s).current == s.current
  {
    hide Yield;
    WaitKeeps(s);
    var u := UpdateWait(s);
    assert u.tasks[u.current].state.Running?;
    YieldKeeps(u);
    assert SameStates(u, Tick(s));
    forall j | 0 <= j < |s.tasks|
      ensures u.tasks[j] == s.tasks[j]
    {
      assert u.tasks[j].state == s.tasks[j].state;
    }
  }

  /** The run consists of ticks and yields, leaves every task's state as it was, and starts with no
      task running with preemption disabled. */
  ghost predicate Steady(states: seq<Sched>, events: seq<Event>) {
    && Trace(states, events) && Calm(states[0])
    && (forall k :: 0 <= k < |events| ==> events[k].TickEvent? || events[k].YieldEvent?)
    && (forall k :: 0 <= k < |states| ==> SameStates(states[0], states[k]))
  }

  lemma {:induction false} PatienceRunsOut(states: seq<Sched>, events: seq<Event>, i: nat, k: nat)
    requires Steady(states, events) && k < |states| && i < |states[0].tasks| && states[0].tasks[i].state.Running?
    requires forall j :: 0 <= j < k ==> states[j].current != i
    ensures Inv(states[k]) && Calm(states[k]) && |states[k].tasks| == |states[0].tasks|
    ensures Patience(states[k], i) + k <= Patience(states[0], i)
  {
    hide Patience, Step, Inv;
    RunKeeps(states, events, k);
    if k > 0 {
      var j := k - 1;
      PatienceRunsOut(states, events, i, j);
      assert Follows(states[j], events[j], states[j + 1]);
      FollowKeeps(states[j], events[j], states[k]);
      assert SameStates(states[0], states[j]) && SameStates(states[0], states[k]);
      CalmStays(states[j], events[j]);
      Progress(states[j], events[j], i);
    }
  }

  /** Only a failed fork ends the calm. */
  lemma CalmStays(s: Sched, e: Event)
    requires Inv(s) && Calm(s) && Allowed(s, e) && e != ForkEvent(false)
    ensures Inv(Step(s, e)) && Calm(Step(s, e))
  {
    hide Step, Inv;
    assert s.current < |s.tasks| <= |s.wait| by { CurrentWithin(s); }
    StepKeeps(s, e);
    var s' := Step(s, e);
    forall i: nat | i < |s'.tasks|
      ensures s'.tasks[i].preemptCount == Normal(s', i)
    {
      assert Excess(s', i) == 0;
    }
  }

  lemma CurrentWithin(s: Sched)
    requires Inv(s)
    ensures s.current < |s.tasks| <= |s.wait|
  {}

  lemma PatienceBounds(s: Sched, i: nat)
    requires Inv(s) && Calm(s) && i < |s.tasks| && s.tasks[i].state.Running?
    ensures 0 <= Patience(s, i) <= 3 * Priorities(s.tasks)
  {
    hide Counters, Priorities;
    CountersBounds(s.tasks, i);
    CountersRange(s.tasks);
    if s.current != i {
      CountersBounds(s.tasks, s.current);
    }
  }

  /** With a fixed set of running tasks, each becomes current within three times the sum of their
      priorities in ticks, however often tasks give up the processor in between. */
  lemma NoStarvation(states: seq<Sched>, events: seq<Event>, i: nat)
    requires Steady(states, events) && i < |states[0].tasks| && states[0].tasks[i].state.Running?
    requires |events| >= 3 * Priorities(states[0].tasks)
    ensures exists k :: 0 <= k <= 3 * Priorities(states[0].tasks) && k < |states| && states[k].current == i
  {
    hide Patience, Inv;
    var bound := 3 * Priorities(states[0].tasks);
    PatienceBounds(states[0], i);
    if forall k :: 0 <= k <= bound && k < |states| ==> states[k].current != i {
      PatienceRunsOut(states, events, i, bound);
      PrioritiesSame(states[0].tasks, states[bound].tasks);
      PatienceBounds(states[bound], i);
      LastPatience(states[bound], i);
    }
  }

  lemma LastPatience(s: Sched, i: nat)
    requires Inv(s) && Calm(s) && i < |s.tasks| && s.tasks[i].state.Running? && Patience(s, i) == 0
    ensures s.current == i
  {
    hide Counters, Priorities;
    CountersBounds(s.tasks, s.current);
    CountersRange(s.tasks);
    if s.current != i {
      CountersBounds(s.tasks, i);
    }
  }
}
