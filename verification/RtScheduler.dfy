/**
 The scheduler of tp1/app/rt.c in its own form: task control blocks updated in place by a loop over the
 list on every tick. Each method is proved against the value model of RtModel.dfy.
 */
module RtScheduler {
  import opened RtModel

  // rt_task without its statistics; `entry` is the address of its function. `executed` is never written by
  // rt_add_task; the model takes it to start at 0.
  class TaskBlock {
    const id: int
    const name: string
    const entry: nat
    const period: int
    const capacity: int
    const deadline: int
    var state: State
    var executed: int

    constructor (id: int, name: string, entry: nat, period: int, capacity: int, deadline: int, state: State,
                 executed: int)
      ensures this.id == id && this.name == name && this.entry == entry && this.deadline == deadline
      ensures Value() == Task(period, capacity, state, executed)
    {
      this.id, this.name, this.entry := id, name, entry;
      this.period, this.capacity, this.deadline := period, capacity, deadline;
      this.state, this.executed := state, executed;
    }

    function Value(): Task
      reads this
    {
      Task(period, capacity, state, executed)
    }
  }

  predicate Acceptable(period: int, capacity: int, state: State) {
    state in {READY, BLOCKED} && period != 0 && capacity != 0 && period >= capacity
  }

  // rt_list_task together with rt_running_id, which rt_add_task uses as the next identifier.
  class TaskList {
    var tasks: seq<TaskBlock>

    // What rt_add_task lets into the list: identifiers count up from 0, no job has begun.
    ghost predicate Accepted()
      reads this, tasks
    {
      forall i :: 0 <= i < |tasks| ==>
        && tasks[i].id == i && tasks[i].executed == 0
        && Acceptable(tasks[i].period, tasks[i].capacity, tasks[i].state)
    }

    constructor ()
      ensures tasks == [] && Accepted()
    {
      tasks := [];
    }

    // rt_add_task; appended says whether list_append finds memory.
    method Add(entry: nat, period: int, capacity: int, deadline: int, name: string, state: State, appended: bool)
        returns (ok: bool)
      requires Accepted()
      modifies this
      ensures Accepted()
      ensures ok <==> Acceptable(period, capacity, state) && appended
      ensures !ok ==> tasks == old(tasks)
      ensures ok ==>
        && |tasks| == |old(tasks)| + 1 && tasks[..|old(tasks)|] == old(tasks)
        && fresh(tasks[|old(tasks)|]) && tasks[|old(tasks)|].id == |old(tasks)|
        && tasks[|old(tasks)|].name == name && tasks[|old(tasks)|].entry == entry
        && tasks[|old(tasks)|].deadline == deadline
        && tasks[|old(tasks)|].Value() == Task(period, capacity, state, 0)
    {
      if state != READY && state != BLOCKED { return false; }
      if period == 0 || capacity == 0 { return false; }
      if period < capacity { return false; }
      var task := new TaskBlock(|tasks|, name, entry, period, capacity, deadline, state, 0);
      if !appended { return false; }
      tasks := tasks + [task];
      return true;
    }
  }

  class Scheduler {
    const tasks: seq<TaskBlock>
    const idle: TaskBlock
    var running: TaskBlock
    var time: nat

    // Identifiers are places in the list, so blocks are pairwise distinct and differ from the idle one.
    ghost predicate Valid()
      reads this
    {
      && idle.id == IDLE
      && (forall i :: 0 <= i < |tasks| ==> tasks[i].id == i && tasks[i].period != 0)
      && (running == idle || running in tasks)
    }

    ghost function Blocks(): set<TaskBlock> {
      (set t | t in tasks) + {idle}
    }

    ghost function View(): (s: System)
      reads this, Blocks()
      requires Valid()
      ensures s.Ok() && |s.tasks| == |tasks|
    {
      System(seq(|tasks|, i requires 0 <= i < |tasks| reads Blocks() => tasks[i].Value()),
             idle.Value(), running.id, time)
    }

    // rt_start: the idle task exists and is the running one, the clock is 0. From tasks with positive capacities and
    // periods below the idle task's, this is the state every theorem about runs starts from.
    constructor Start(list: TaskList, idleEntry: nat)
      requires list.Accepted()
      ensures Valid() && tasks == list.tasks && fresh(idle)
      ensures idle.name == "rt_idle_task" && idle.entry == idleEntry && idle.Value() == Task(65535, -1, SYS, 0)
      ensures View() == System(seq(|tasks|, i requires 0 <= i < |tasks| reads Blocks() => tasks[i].Value()),
                               Task(IDLE_PERIOD, IDLE_CAPACITY, SYS, 0), IDLE, 0)
      ensures Initial(View()) <==>
        forall i :: 0 <= i < |tasks| ==> 1 <= tasks[i].capacity && tasks[i].period < IDLE_PERIOD
    {
      var block := new TaskBlock(IDLE, "rt_idle_task", idleEntry, IDLE_PERIOD, IDLE_CAPACITY, 0, SYS, 0);
      tasks := list.tasks;
      idle, running := block, block;
      time := 0;
      new;
      assert forall i :: 0 <= i < |tasks| ==> View().tasks[i] == tasks[i].Value();
    }

    // rt_context_switch up to the jump into the chosen task.
    method Tick()
      requires Valid()
      modifies this, Blocks()
      ensures Valid()
      ensures View() == Step(old(View()))
    {
      RetireRunning();
      ScanTasks();
      Charge();
    }

    method RetireRunning()
      requires Valid()
      modifies this, Blocks()
      ensures Valid()
      ensures View() == old(View()).Retire()
    {
      ghost var s := View();
      if running.state != SYS {
        if running.executed == running.capacity {
          running.state := DONE;
          running := idle;
        }
      }
      assert View().tasks == s.Retire().tasks;
    }

    // The loop over the list: release what is due, keep the shortest period seen.
    method ScanTasks()
      requires Valid()
      modifies this, Blocks()
      ensures Valid()
      ensures var r := ReleaseAll(old(View())); View() == r.(running := SelectTo(r, |r.tasks|))
    {
      ghost var s := View();
      ghost var r := ReleaseAll(s);
      assert ReleaseTo(s.tasks, s.time, 0) == s.tasks;
      var k := 0;
      while k < |tasks|
        invariant k <= |tasks| && Valid()
        invariant View().tasks == ReleaseTo(s.tasks, s.time, k)
        invariant idle.Value() == s.idle && time == s.time
        invariant running.id == SelectTo(r, k)
      {
        ScanOne(s, r, k);
        k := k + 1;
      }
    }

    // One turn of the loop.
    method ScanOne(ghost s: System, ghost r: System, k: nat)
      requires Valid() && s.Ok() && k < |tasks| == |s.tasks| && r == ReleaseAll(s)
      requires View().tasks == ReleaseTo(s.tasks, s.time, k)
      requires idle.Value() == s.idle && time == s.time && running.id == SelectTo(r, k)
      modifies this, Blocks()
      ensures Valid() && View().tasks == ReleaseTo(s.tasks, s.time, k + 1)
      ensures idle.Value() == s.idle && time == s.time && running.id == SelectTo(r, k + 1)
    {
      ghost var before := View().tasks;
      assert before[k] == tasks[k].Value() == s.tasks[k];
      RunningPeriod(s, r, k);
      VisitTask(k);
      assert View().tasks[k] == tasks[k].Value() == r.tasks[k];
      assert View().tasks == ReleaseTo(s.tasks, s.time, k + 1);
    }

    // Releasing changes no period, so the scan compares with the period of the task chosen so far.
    lemma RunningPeriod(s: System, r: System, k: nat)
      requires Valid() && s.Ok() && k < |tasks| == |s.tasks| && r == ReleaseAll(s)
      requires View().tasks == ReleaseTo(s.tasks, s.time, k)
      requires idle.Value() == s.idle && running.id == SelectTo(r, k)
      ensures running.period == r.Get(running.id).period
    {
      if running != idle {
        assert View().tasks[running.id] == running.Value();
      }
    }

    // The body of the loop for one element.
    method VisitTask(k: nat)
      requires Valid() && k < |tasks|
      modifies this, Blocks()
      ensures Valid() && time == old(time) && idle.Value() == old(idle.Value())
      ensures View().tasks == old(View().tasks)[k := Release(old(tasks[k].Value()), time)]
      ensures running.id == (if Eligible(tasks[k].Value()) && tasks[k].period < old(running).period then k
                             else old(running).id)
    {
      var task := tasks[k];
      ghost var before := View().tasks;
      if task.state == BLOCKED {
        assert before[k] == task.Value();
        return;
      }
      if task.state == DONE {
        if time % task.period != 0 {
          assert before[k] == task.Value();
          return;
        }
        task.executed := 0;
        task.state := READY;
      }
      assert View().tasks == before[k := Release(old(tasks[k].Value()), time)];
      if task.period < running.period {
        running := task;
      }
    }

    method Charge()
      requires Valid()
      modifies this, Blocks()
      ensures Valid()
      ensures View() == Dispatch(old(View()), old(running).id)
    {
      ghost var s := View();
      running.state := RUNNING;
      running.executed := running.executed + 1;
      time := time + 1;
      assert View().tasks == Dispatch(s, running.id).tasks;
    }
  }
}
