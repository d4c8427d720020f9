/**
 Whole runs of the scheduler: which task each tick dispatches and what each task's job still owes, for
 every initial task set and every number of ticks. A run's accounts form a legal ledger (RtLedger.dfy).
 */
module RtRuns {
  import opened RtModel
  import opened RtLedger

  function Run(s0: System, n: nat): (s: System)
    requires s0.Ok()
    ensures s.Ok() && |s.tasks| == |s0.tasks| && s.time == s0.time + n
  {
    if n == 0 then s0 else Step(Run(s0, n - 1))
  }

  // The task that tick t jumps to.
  function Dispatched(s0: System, t: nat): (id: int)
    requires s0.Ok()
    ensures IDLE <= id < |s0.tasks|
  {
    Run(s0, t + 1).running
  }

  ghost predicate Active(s0: System, i: int) {
    0 <= i < |s0.tasks| && s0.tasks[i].state != BLOCKED
  }

  // Tick t starts a new job of task i: the first one at time 0, the others when a DONE task is due.
  ghost predicate StartsJob(s0: System, i: int, t: nat)
    requires s0.Ok() && 0 <= i < |s0.tasks|
  {
    && s0.tasks[i].state != BLOCKED
    && (t == 0 || Due(Run(s0, t).Retire().tasks[i], Run(s0, t).time))
  }

  // What the jobs of task i started before time n still have to execute.
  ghost function Owed(s0: System, i: int, n: nat): int
    requires s0.Ok() && 0 <= i < |s0.tasks|
  {
    if n == 0 || s0.tasks[i].state == BLOCKED then 0
    else s0.tasks[i].capacity - Run(s0, n).tasks[i].executed
  }

  ghost predicate WantsToRun(s0: System, i: int, t: nat)
    requires s0.Ok()
  {
    Active(s0, i) && (Owed(s0, i, t) > 0 || StartsJob(s0, i, t))
  }

  lemma {:induction false} RunInv(s0: System, n: nat)
    requires Initial(s0)
    ensures Inv(Run(s0, n))
    ensures forall i :: 0 <= i < |s0.tasks| ==> SameConfig(s0.tasks[i], Run(s0, n).tasks[i])
  {
    if n == 0 { InitialInv(s0); } else { RunInv(s0, n - 1); StepFacts(Run(s0, n - 1)); }
  }

  // One tick of one task on values.
  lemma TaskStep(s: System, i: int)
    requires Inv(s) && 0 <= i < |s.tasks| && s.tasks[i].state != BLOCKED
    ensures var t, s' := s.tasks[i], Step(s);
      var due := Due(s.Retire().tasks[i], s.time);
      && (due <==> t.executed == t.capacity && s.time % t.period == 0)
      && s'.tasks[i].executed == (if due then 0 else t.executed) + (if s'.running == i then 1 else 0)
      && (s'.running == i ==> (if due then 0 else t.executed) < t.capacity)
  {
    ReleasedFacts(s);
    StepFacts(s);
    DispatchesShortestPeriod(s);
  }

  // One tick, seen from one task: what it owes drops by one exactly when it is dispatched and rises by a
  // capacity exactly when it starts a job, which it does only owing nothing at a multiple of its period.
  lemma OwedStep(s0: System, i: int, t: nat)
    requires Initial(s0) && Active(s0, i)
    ensures var c := s0.tasks[i].capacity;
      && Owed(s0, i, t + 1) == Owed(s0, i, t) + (if StartsJob(s0, i, t) then c else 0)
                                              - (if Dispatched(s0, t) == i then 1 else 0)
      && (StartsJob(s0, i, t) <==> Owed(s0, i, t) == 0 && t % s0.tasks[i].period == 0)
      && 0 <= Owed(s0, i, t) <= c
      && (Dispatched(s0, t) == i ==> Owed(s0, i, t + 1) < c)
  {
    RunInv(s0, t);
    RunInv(s0, t + 1);
    assert Run(s0, t + 1) == Step(Run(s0, t));
    hide Step, Due, System.Retire;
    TaskStep(Run(s0, t), i);
  }

  // Eligibility in terms of what is owed.
  lemma EligibleIffOwing(s0: System, i: int, t: nat)
    requires Initial(s0) && 0 <= i < |s0.tasks|
    ensures Eligible(Released(Run(s0, t)).tasks[i]) <==>
            WantsToRun(s0, i, t)
  {
    RunInv(s0, t);
    ReleasedFacts(Run(s0, t));
  }

  // Priority over whole runs: the dispatched task owes work, and no task that owes work at that tick has
  // a shorter period. The idle task is dispatched exactly when nobody owes anything.
  lemma PriorityInRuns(s0: System, t: nat)
    requires Initial(s0)
    ensures var d := Dispatched(s0, t);
      && (d != IDLE ==> WantsToRun(s0, d, t))
      && forall i :: WantsToRun(s0, i, t) ==>
           d != IDLE && s0.tasks[d].period <= s0.tasks[i].period
  {
    RunInv(s0, t);
    var d := Dispatched(s0, t);
    DispatchesShortestPeriod(Run(s0, t));
    ReleasedFacts(Run(s0, t));
    if d != IDLE { EligibleIffOwing(s0, d, t); }
    forall i | WantsToRun(s0, i, t)
      ensures d != IDLE && s0.tasks[d].period <= s0.tasks[i].period
    {
      EligibleIffOwing(s0, i, t);
    }
  }

  // ---------------------------------------------------------------- periods the idle task shuts out

  ghost predicate ShortRunning(s: System) {
    s.Ok() && s.idle.period == IDLE_PERIOD && (s.running == IDLE || s.tasks[s.running].period < IDLE_PERIOD)
  }

  lemma ShortRunningStep(s: System)
    requires ShortRunning(s)
    ensures ShortRunning(Step(s))
  {
    SelectMinimal(Released(s), |s.tasks|);
  }

  // A task whose period reaches the idle task's is never dispatched, from any start and whatever else it holds.
  lemma {:induction false} LongPeriodsNeverRun(s0: System, t: nat)
    requires ShortRunning(s0)
    ensures ShortRunning(Run(s0, t))
    ensures var d := Dispatched(s0, t); d == IDLE || Run(s0, t + 1).tasks[d].period < IDLE_PERIOD
  {
    if t > 0 { LongPeriodsNeverRun(s0, t - 1); }
    ShortRunningStep(Run(s0, t));
  }

  // The accounts of a run, with everything else forgotten.
  ghost function History(s0: System): Ledger
    requires s0.Ok()
  {
    Ledger(|s0.tasks|,
           (i: nat) => if i < |s0.tasks| && s0.tasks[i].period > 0 then s0.tasks[i].period else 1,
           (i: nat) => if i < |s0.tasks| then s0.tasks[i].capacity else 1,
           (i: nat) => Active(s0, i),
           (t: nat) => Dispatched(s0, t),
           (i: nat, t: nat) => if i < |s0.tasks| then Owed(s0, i, t) else 0)
  }

  lemma HistoryTaskRow(s0: System, i: nat, t: nat)
    requires Initial(s0) && Active(s0, i)
    ensures TaskRow(History(s0), i, t)
  {
    hide Owed, Run, Dispatched, StartsJob;
    OwedAtStart(s0, i);
    OwedStep(s0, i, t);
    OwedStep(s0, i, t + 1);
  }

  lemma OwedAtStart(s0: System, i: int)
    requires Initial(s0) && Active(s0, i)
    ensures Owed(s0, i, 0) == 0 && 1 <= s0.tasks[i].capacity <= s0.tasks[i].period
  {}

  lemma HistoryTickRow(s0: System, t: nat)
    requires Initial(s0)
    ensures TickRow(History(s0), t)
  {
    var h, d := History(s0), Dispatched(s0, t);
    PriorityInRuns(s0, t);
    if d != IDLE { OwedStep(s0, d, t); }
    forall i: nat | Owing(h, i, t)
      ensures d >= 0 && h.period(d) <= h.period(i)
    {
      OwedStep(s0, i, t);
    }
  }

  // Every run of the scheduler keeps legal accounts.
  lemma HistoryIsLegal(s0: System)
    requires Initial(s0)
    ensures Legal(History(s0))
  {
    var h := History(s0);
    forall i: nat, t: nat | h.active(i)
      ensures TaskRow(h, i, t)
    {
      HistoryTaskRow(s0, i, t);
    }
    forall t: nat
      ensures TickRow(h, t)
    {
      HistoryTickRow(s0, t);
    }
  }
}
