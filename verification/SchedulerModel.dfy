/** The scheduler's state and what each of its entry points does to it, in terms of values. */
module SchedulerModel {
  const NR_TASKS: nat := 64
  const TICKS_PER_SECOND: nat := 10

  datatype State = Running | Zombie | Wait

  datatype Info = Info(state: State, counter: int, priority: int, preemptCount: int)

  /** The tasks in the order of their numbers, the current one's number, each number's seconds
      left to sleep (-1 for none), and the ticks since the last full second. */
  datatype Sched = Sched(tasks: seq<Info>, current: nat, wait: seq<int>, frq: nat)

  ghost predicate Shape(s: Sched) {
    && s.current < |s.tasks| <= NR_TASKS == |s.wait| && s.frq < TICKS_PER_SECOND
    && (forall i :: 0 <= i < |s.tasks| ==> s.tasks[i].priority >= 1)
    && (forall i :: |s.tasks| <= i < NR_TASKS ==> s.wait[i] == -1)
  }

  function NobodyWaits(): (r: seq<int>)
    ensures |r| == NR_TASKS && forall i :: 0 <= i < NR_TASKS ==> r[i] == -1
  {
    seq(NR_TASKS, _ => -1)
  }

  /** The kernel as booted, with its initial task only. */
  function Boot(): Sched {
    Sched([Info(Running, 0, 1, 0)], 0, NobodyWaits(), 0)
  }

  // Picking the next task

  /** A scan of the first n tasks: the best counter seen and its task. */
  function Scan(tasks: seq<Info>, n: nat): (int, nat)
    requires n <= |tasks|
  {
    if n == 0 then (-1, 0)
    else
      var (c, next) := Scan(tasks, n - 1);
      if tasks[n - 1].state.Running? && tasks[n - 1].counter > c then (tasks[n - 1].counter, n - 1) else (c, next)
  }

  /** Every counter halved and topped up by the priority. */
  function Recharge(tasks: seq<Info>): (r: seq<Info>)
    ensures |r| == |tasks| && forall i :: 0 <= i < |r| ==> r[i] == tasks[i].(counter := tasks[i].counter / 2 + tasks[i].priority)
  {
    if tasks == [] then []
    else
      var n := |tasks| - 1;
      Recharge(tasks[..n]) + [tasks[n].(counter := tasks[n].counter / 2 + tasks[n].priority)]
  }

  /** The tasks as they are when one is picked: recharged if the best counter was 0. */
  function Ready(tasks: seq<Info>): (r: seq<Info>)
    ensures |r| == |tasks|
  {
    if Scan(tasks, |tasks|).0 == 0 then Recharge(tasks) else tasks
  }

  function Pick(tasks: seq<Info>): nat {
    Scan(Ready(tasks), |tasks|).1
  }

  /** Adds d to task i's preempt_count. */
  function Preempt(tasks: seq<Info>, i: nat, d: int): (r: seq<Info>)
    requires i < |tasks|
    ensures |r| == |tasks|
  {
    tasks[i := tasks[i].(preemptCount := tasks[i].preemptCount + d)]
  }

  lemma {:induction false} ScanBounds(tasks: seq<Info>, n: nat)
    requires n <= |tasks|
    ensures var (c, next) := Scan(tasks, n);
            && (n > 0 ==> next < n) && (n == 0 ==> next == 0) && c >= -1
            && (c > -1 ==> tasks[next].state.Running? && tasks[next].counter == c)
            && (c == -1 ==> next == 0)
            && (forall i :: 0 <= i < n && tasks[i].state.Running? ==> tasks[i].counter <= c)
            && (forall i :: 0 <= i < next && tasks[i].state.Running? ==> tasks[i].counter < c)
  {
    if n > 0 {
      ScanBounds(tasks, n - 1);
    }
  }

  /** _schedule: the picked task becomes current, and leaves the scheduler with preemption
      enabled, while the one before stays behind in it. */
  function Reschedule(s: Sched): Sched
    requires s.current < |s.tasks|
  {
    var ready := Ready(Preempt(s.tasks, s.current, 1));
    var next := Pick(Preempt(s.tasks, s.current, 1));
    ScanBounds(ready, |ready|);
    s.(tasks := Preempt(ready, next, -1), current := next)
  }

  /** The current task gives up the processor. */
  function Yield(s: Sched): Sched
    requires s.current < |s.tasks|
  {
    Reschedule(s.(tasks := s.tasks[s.current := s.tasks[s.current].(counter := 0)]))
  }

  // The timer

  function TimerTick(s: Sched): Sched
    requires s.current < |s.tasks|
  {
    var t := s.tasks[s.current];
    if t.counter - 1 > 0 || t.preemptCount > 0 then s.(tasks := s.tasks[s.current := t.(counter := t.counter - 1)])
    else Yield(s)
  }

  /** A second has passed for task i. */
  function Waited(wait: int): int {
    if wait == 1 || wait == -1 then -1 else wait - 1
  }

  function WakeUp(tasks: seq<Info>, wait: seq<int>): (r: seq<Info>)
    requires |tasks| <= |wait|
    ensures |r| == |tasks| && forall i :: 0 <= i < |r| ==> r[i] == if wait[i] == 1 then tasks[i].(state := Running) else tasks[i]
  {
    if tasks == [] then []
    else
      var n := |tasks| - 1;
      WakeUp(tasks[..n], wait) + [if wait[n] == 1 then tasks[n].(state := Running) else tasks[n]]
  }

  function UpdateWait(s: Sched): Sched
    requires |s.tasks| <= |s.wait|
  {
    if s.frq + 1 != TICKS_PER_SECOND then s.(frq := s.frq + 1)
    else s.(tasks := WakeUp(s.tasks, s.wait), wait := seq(|s.wait|, i requires 0 <= i < |s.wait| => Waited(s.wait[i])), frq := 0)
  }

  function Tick(s: Sched): Sched
    requires s.current < |s.tasks| <= |s.wait|
  {
    TimerTick(UpdateWait(s))
  }

  // System calls of the current task

  function SetState(s: Sched, state: State): Sched
    requires s.current < |s.tasks|
  {
    s.(tasks := s.tasks[s.current := s.tasks[s.current].(state := state)])
  }

  function Exit(s: Sched): Sched
    requires s.current < |s.tasks|
  {
    Yield(SetState(s, Zombie))
  }

  /** A task that already waits is sent back, with preemption left disabled. */
  function Sleep(s: Sched, seconds: int): Sched
    requires s.current < |s.tasks| <= |s.wait|
  {
    if s.tasks[s.current].state.Wait? then s.(tasks := Preempt(s.tasks, s.current, 1))
    else Yield(SetState(s, Wait).(wait := s.wait[s.current := seconds]))
  }

  /** A fork, with or without a page for the new task; without, preemption is left disabled. */
  function Fork(s: Sched, page: bool): Sched
    requires s.current < |s.tasks|
  {
    if page then
      var p := s.tasks[s.current].priority;
      s.(tasks := s.tasks + [Info(Running, p, p, 1)])
    else s.(tasks := Preempt(s.tasks, s.current, 1))
  }

  // Runs

  datatype Event = TickEvent | YieldEvent | ForkEvent(page: bool) | ExitEvent | SleepEvent(seconds: int)

  /** What the calls need: a place for a new task; and another task to run. */
  ghost predicate Allowed(s: Sched, e: Event) {
    match e
    case TickEvent => true
    case YieldEvent => true
    case ForkEvent(page) => page ==> |s.tasks| < NR_TASKS
    case ExitEvent => OtherRuns(s)
    case SleepEvent(_) => OtherRuns(s)
  }

  ghost predicate OtherRuns(s: Sched) {
    exists i :: 0 <= i < |s.tasks| && i != s.current && s.tasks[i].state.Running?
  }

  function Step(s: Sched, e: Event): Sched
    requires s.current < |s.tasks| <= |s.wait|
  {
    match e
    case TickEvent => Tick(s)
    case YieldEvent => Yield(s)
    case ForkEvent(page) => Fork(s, page)
    case ExitEvent => Exit(s)
    case SleepEvent(n) => Sleep(s, n)
  }

  /** A run: the states before and after each event, from a state that satisfies the invariant. */
  ghost predicate Trace(states: seq<Sched>, events: seq<Event>) {
    && |states| == |events| + 1 && Inv(states[0])
    && forall k :: 0 <= k < |events| ==> Follows(states[k], events[k], states[k + 1])
  }

  ghost predicate Follows(s: Sched, e: Event, s': Sched) {
    s.current < |s.tasks| <= |s.wait| ==> Allowed(s, e) && s' == Step(s, e)
  }

  // What every reachable state satisfies

  /** The preempt_count of a task that has preemption enabled when it runs. */
  function Normal(s: Sched, i: nat): int {
    if i == s.current then 0 else 1
  }

  /** Only the current task can be preempted; it runs; counters stay below twice the priority, and
      only that of a current task with preemption disabled can be negative; and only waiting tasks
      have seconds to wait. */
  ghost predicate Inv(s: Sched) {
    && Shape(s) && s.tasks[s.current].state.Running?
    && (forall i :: 0 <= i < |s.tasks| ==> s.tasks[i].preemptCount >= Normal(s, i))
    && (forall i :: 0 <= i < |s.tasks| ==> s.tasks[i].counter < 2 * s.tasks[i].priority)
    && (forall i :: 0 <= i < |s.tasks| && (i != s.current || s.tasks[i].preemptCount == 0) ==> s.tasks[i].counter >= 0)
    && (forall i :: 0 <= i < |s.tasks| && !s.tasks[i].state.Wait? ==> s.wait[i] == -1)
  }

  /** No task runs with preemption disabled. */
  ghost predicate Calm(s: Sched) {
    forall i :: 0 <= i < |s.tasks| ==> s.tasks[i].preemptCount == Normal(s, i)
  }

  /** Every waiting task has seconds left. */
  ghost predicate Wakeful(s: Sched) {
    |s.tasks| <= |s.wait| && forall i :: 0 <= i < |s.tasks| ==> (s.tasks[i].state.Wait? <==> s.wait[i] >= 1)
  }
}
