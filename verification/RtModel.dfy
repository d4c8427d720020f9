/**
 The rate-monotonic scheduler of tp1/app/rt.c as a function on values.

 One call of rt_context_switch is one tick: retire the running job if it is complete, release DONE
 tasks at multiples of their period, pick the smallest period, account for one time unit. The class in
 RtScheduler.dfy does this in place and is proved equal to Step; the theorems about whole runs are in
 RtRuns.dfy and RtSchedulability.dfy.
 */
module RtModel {

  datatype State = READY | RUNNING | BLOCKED | DONE | SYS

  // What a tick reads and writes of an rt_task.
  datatype Task = Task(period: int, capacity: int, state: State, executed: int)

  // The identifier of the idle task; every other task's identifier is its place in the list.
  const IDLE := -1
  const IDLE_PERIOD := 65535
  const IDLE_CAPACITY := -1

  datatype System = System(tasks: seq<Task>, idle: Task, running: int, time: nat) {

    predicate Ok() {
      && IDLE <= running < |tasks|
      && forall i :: 0 <= i < |tasks| ==> tasks[i].period != 0
    }

    function Get(id: int): Task
      requires IDLE <= id < |tasks|
    {
      if id == IDLE then idle else tasks[id]
    }

    function Set(id: int, t: Task): System
      requires IDLE <= id < |tasks|
    {
      if id == IDLE then this.(idle := t) else this.(tasks := tasks[id := t])
    }

    // A running job that has used its whole capacity becomes DONE and gives way to the idle task.
    function Retire(): System
      requires Ok()
    {
      var c := Get(running);
      if c.state != SYS && c.executed == c.capacity then
        Set(running, c.(state := DONE)).(running := IDLE)
      else
        this
    }
  }

  // A DONE task starts a new job when the time is a multiple of its period. Periods may be negative: for times,
  // which are not, C's remainder and Dafny's agree.
  predicate Due(t: Task, time: nat)
    requires t.period != 0
  {
    t.state == DONE && time % t.period == 0
  }

  function Release(t: Task, time: nat): Task
    requires t.period != 0
  {
    if Due(t, time) then t.(state := READY, executed := 0) else t
  }

  predicate Eligible(t: Task) {
    t.state != BLOCKED && t.state != DONE
  }

  // The list after its first k elements have been visited by the release loop.
  function ReleaseTo(tasks: seq<Task>, time: nat, k: nat): (r: seq<Task>)
    requires k <= |tasks|
    requires forall i :: 0 <= i < |tasks| ==> tasks[i].period != 0
    ensures |r| == |tasks|
  {
    seq(|tasks|, i requires 0 <= i < |tasks| => if i < k then Release(tasks[i], time) else tasks[i])
  }

  // The task chosen after the first k (released) elements have been compared with the running one.
  function SelectTo(s: System, k: nat): (id: int)
    requires s.Ok() && k <= |s.tasks|
    ensures IDLE <= id < |s.tasks|
  {
    if k == 0 then s.running
    else
      var best := SelectTo(s, k - 1);
      if Eligible(s.tasks[k - 1]) && s.tasks[k - 1].period < s.Get(best).period then k - 1 else best
  }

  function ReleaseAll(s: System): (r: System)
    requires s.Ok()
    ensures r.Ok() && |r.tasks| == |s.tasks| && r.time == s.time
  {
    s.(tasks := ReleaseTo(s.tasks, s.time, |s.tasks|))
  }

  // The moment between release and dispatch.
  function Released(s: System): (r: System)
    requires s.Ok()
    ensures r.Ok() && |r.tasks| == |s.tasks| && r.time == s.time
  {
    ReleaseAll(s.Retire())
  }

  function Dispatch(r: System, id: int): System
    requires IDLE <= id < |r.tasks|
  {
    var t := r.Get(id);
    r.Set(id, t.(state := RUNNING, executed := t.executed + 1)).(running := id, time := r.time + 1)
  }

  // One rt_context_switch.
  function Step(s: System): (s': System)
    requires s.Ok()
    ensures s'.Ok() && |s'.tasks| == |s.tasks| && s'.time == s.time + 1
  {
    var r := Released(s);
    Dispatch(r, SelectTo(r, |r.tasks|))
  }

  // ---------------------------------------------------------------- the invariant of one tick

  ghost predicate WellFormed(t: Task) {
    1 <= t.capacity <= t.period < IDLE_PERIOD
  }

  // What rt_start leaves behind when every task was added with 1 <= capacity <= period < 65535.
  ghost predicate Initial(s: System) {
    && s.time == 0 && s.running == IDLE
    && s.idle.period == IDLE_PERIOD && s.idle.capacity == IDLE_CAPACITY && s.idle.state == SYS
    && forall i :: 0 <= i < |s.tasks| ==>
         WellFormed(s.tasks[i]) && s.tasks[i].executed == 0 && s.tasks[i].state in {READY, BLOCKED}
  }

  // A task's budget is never exceeded, and only the task dispatched last may have used all of it
  // without being DONE.
  ghost predicate TaskInv(t: Task, running: bool) {
    && WellFormed(t)
    && 0 <= t.executed <= t.capacity
    && t.state != SYS
    && (t.state == BLOCKED ==> t.executed == 0)
    && (t.state == DONE ==> t.executed == t.capacity && !running)
    && (t.executed == t.capacity ==> t.state == DONE || running)
    && (running ==> t.state == RUNNING)
  }

  ghost predicate Inv(s: System) {
    && s.Ok()
    && s.idle.period == IDLE_PERIOD
    && forall i :: 0 <= i < |s.tasks| ==> TaskInv(s.tasks[i], i == s.running)
  }

  ghost predicate SameConfig(a: Task, b: Task) {
    a.period == b.period && a.capacity == b.capacity && (a.state == BLOCKED <==> b.state == BLOCKED)
  }

  lemma InitialInv(s: System)
    requires Initial(s)
    ensures Inv(s)
  {}

  // After the release phase a task is eligible exactly when it is not BLOCKED and has budget left.
  lemma ReleasedFacts(s: System)
    requires Inv(s)
    ensures var r := Released(s);
      && r.idle.period == IDLE_PERIOD
      && (r.running == IDLE || Eligible(r.tasks[r.running]))
      && forall i :: 0 <= i < |s.tasks| ==>
           && SameConfig(s.tasks[i], r.tasks[i])
           && TaskInv(r.tasks[i], i == r.running)
           && (r.tasks[i].executed == r.tasks[i].capacity <==> r.tasks[i].state == DONE)
           && r.tasks[i].executed ==
              if s.tasks[i].executed == s.tasks[i].capacity && s.time % s.tasks[i].period == 0 then 0
              else s.tasks[i].executed
  {
    var c, r := s.Retire(), Released(s);
    forall i | 0 <= i < |s.tasks|
      ensures SameConfig(s.tasks[i], r.tasks[i]) && TaskInv(r.tasks[i], i == r.running)
    {
      assert r.tasks[i] == Release(c.tasks[i], s.time);
    }
  }

  // The scan returns the smallest period among the starting choice and the eligible tasks visited.
  lemma {:induction false} SelectMinimal(s: System, k: nat)
    requires s.Ok() && k <= |s.tasks|
    ensures var id := SelectTo(s, k);
      && (id == s.running ||
          (0 <= id < k && Eligible(s.tasks[id]) && s.Get(id).period < s.Get(s.running).period))
      && forall i :: 0 <= i < k && Eligible(s.tasks[i]) ==> s.Get(id).period <= s.tasks[i].period
  {
    if k > 0 { SelectMinimal(s, k - 1); }
  }

  // Work conservation and priority: the dispatched task is eligible and no eligible task has a shorter
  // period; the idle task runs only when nothing is eligible; BLOCKED tasks never run.
  lemma DispatchesShortestPeriod(s: System)
    requires Inv(s)
    ensures var r, id := Released(s), Step(s).running;
      && (id != IDLE ==> Eligible(r.tasks[id]) && s.tasks[id].state != BLOCKED)
      && (id == IDLE <==> forall i :: 0 <= i < |r.tasks| ==> !Eligible(r.tasks[i]))
      && forall i :: 0 <= i < |r.tasks| && Eligible(r.tasks[i]) ==>
           id != IDLE && r.tasks[id].period <= r.tasks[i].period
  {
    ReleasedFacts(s);
    SelectMinimal(Released(s), |s.tasks|);
  }

  // One tick keeps the invariant and the configuration, and moves exactly one budget by one unit.
  lemma StepFacts(s: System)
    requires Inv(s)
    ensures Inv(Step(s))
    ensures var r, s' := Released(s), Step(s);
      forall i :: 0 <= i < |s.tasks| ==>
        && SameConfig(s.tasks[i], s'.tasks[i])
        && s'.tasks[i].executed == r.tasks[i].executed + (if i == s'.running then 1 else 0)
  {
    ReleasedFacts(s);
    DispatchesShortestPeriod(s);
  }

  // ---------------------------------------------------------------- one tick, written out

  // The running job has used up its capacity.
  predicate Finishes(s: System, i: int)
    requires s.Ok() && 0 <= i < |s.tasks|
  {
    i == s.running && s.tasks[i].state != SYS && s.tasks[i].executed == s.tasks[i].capacity
  }

  // A new job of task i begins.
  predicate Begins(s: System, i: int)
    requires s.Ok() && 0 <= i < |s.tasks|
  {
    (s.tasks[i].state == DONE || Finishes(s, i)) && s.time % s.tasks[i].period == 0
  }

  // Task i takes part in the choice.
  predicate Waits(s: System, i: int)
    requires s.Ok() && 0 <= i < |s.tasks|
  {
    Begins(s, i) || (s.tasks[i].state != BLOCKED && s.tasks[i].state != DONE && !Finishes(s, i))
  }

  // The task the choice starts from: the running one, or the idle task once that has finished.
  function Incumbent(s: System): int
    requires s.Ok()
  {
    if s.running != IDLE && Finishes(s, s.running) then IDLE
    else if s.running == IDLE && s.idle.state != SYS && s.idle.executed == s.idle.capacity then IDLE
    else s.running
  }

  // What becomes of task i: the chosen one runs for a tick, a finished one is DONE, unless its next job is due at once.
  lemma TickOfTask(s: System, i: int)
    requires s.Ok() && 0 <= i < |s.tasks|
    ensures var t, t', chosen := s.tasks[i], Step(s).tasks[i], Step(s).running;
      && t'.period == t.period && t'.capacity == t.capacity
      && t'.executed == (if Begins(s, i) then 0 else t.executed) + (if i == chosen then 1 else 0)
      && t'.state == if i == chosen then RUNNING
                     else if Begins(s, i) then READY else if Finishes(s, i) then DONE else t.state
  {
    assert Released(s).tasks[i] == Release(s.Retire().tasks[i], s.time);
  }

  // Which task is chosen: the incumbent, unless a waiting task has a shorter period. Then the shortest, and of equal
  // ones the first in the list.
  lemma TickChooses(s: System)
    requires s.Ok()
    ensures var first, id := Incumbent(s), Step(s).running;
      && Step(s).time == s.time + 1
      && (forall i :: 0 <= i < |s.tasks| && Waits(s, i) ==> PeriodOf(s, id) <= s.tasks[i].period)
      && (id != first ==> 0 <= id < |s.tasks| && Waits(s, id) && s.tasks[id].period < PeriodOf(s, first))
      && (id != first ==> forall i :: 0 <= i < id && Waits(s, i) ==> s.tasks[id].period < s.tasks[i].period)
  {
    var r := Released(s);
    forall i | 0 <= i < |s.tasks|
      ensures Eligible(r.tasks[i]) <==> Waits(s, i)
      ensures r.tasks[i].period == s.tasks[i].period
    {
      assert r.tasks[i] == Release(s.Retire().tasks[i], s.time);
    }
    SelectMinimal(r, |r.tasks|);
    SelectFirst(r, |r.tasks|);
  }

  function PeriodOf(s: System, id: int): int
    requires s.Ok() && IDLE <= id < |s.tasks|
  {
    if id == IDLE then s.idle.period else s.tasks[id].period
  }

  lemma {:induction false} SelectFirst(s: System, k: nat)
    requires s.Ok() && k <= |s.tasks|
    ensures var id := SelectTo(s, k);
      id != s.running ==>
        && id >= 0
        && forall i :: 0 <= i < id && Eligible(s.tasks[i]) ==> s.tasks[id].period < s.tasks[i].period
  {
    if k > 0 {
      SelectFirst(s, k - 1);
      SelectMinimal(s, k - 1);
    }
  }

  // What becomes of the idle task.
  lemma TickOfIdle(s: System)
    requires s.Ok()
    ensures var t, t', runs := s.idle, Step(s).idle, Step(s).running == IDLE;
      && t'.period == t.period && t'.capacity == t.capacity && t'.executed == t.executed + (if runs then 1 else 0)
      && t'.state == if runs then RUNNING
                     else if s.running == IDLE && t.state != SYS && t.executed == t.capacity then DONE else t.state
  {}
}
