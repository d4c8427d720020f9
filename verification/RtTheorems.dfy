/**
 What every run of tp1/app/rt.c guarantees, from any initial task set with 1 <= capacity <= period < 65535.
 */
module RtTheorems {
  import opened RtModel
  import opened RtRuns
  import opened RtLedger
  import opened RtSchedulability
  import opened PowersOfTwo
  import opened Sums

  // At every positive multiple of its period, the task's previous job has executed its full capacity.
  ghost predicate DeadlinesMet(s0: System, i: nat)
    requires Initial(s0) && i < |s0.tasks|
  {
    forall t: nat :: t > 0 && t % s0.tasks[i].period == 0 ==>
      Run(s0, t).tasks[i].executed == s0.tasks[i].capacity
  }

  // Task j's part in the sums for task i: only unblocked tasks with period at most i's count.
  ghost predicate Rivals(s0: System, i: nat, j: nat)
    requires Initial(s0) && i < |s0.tasks|
  {
    Active(s0, j) && s0.tasks[j].period <= s0.tasks[i].period
  }

  ghost function CapacityOf(s0: System, i: nat, j: nat): int
    requires Initial(s0) && i < |s0.tasks|
  {
    if Rivals(s0, i, j) then s0.tasks[j].capacity else 0
  }

  ghost function AskedBy(s0: System, i: nat, len: nat, j: nat): int
    requires Initial(s0) && i < |s0.tasks|
  {
    if Rivals(s0, i, j) then s0.tasks[j].capacity * Releases(len, s0.tasks[j].period) else 0
  }

  // Each rival's capacity times the number of multiples of its period in [0, len).
  ghost function DemandAgainst(s0: System, i: nat, len: nat): int
    requires Initial(s0) && i < |s0.tasks|
  {
    Sum((j: nat) => AskedBy(s0, i, len, j), |s0.tasks|)
  }

  ghost predicate HasFittingWindow(s0: System, i: nat)
    requires Initial(s0) && i < |s0.tasks|
  {
    exists len: nat :: WindowFits(s0, i, len)
  }

  ghost predicate WindowFits(s0: System, i: nat, len: nat)
    requires Initial(s0) && i < |s0.tasks|
  {
    1 <= len <= s0.tasks[i].period && DemandAgainst(s0, i, len) <= len
  }

  lemma DemandAgainstIsDemand(s0: System, i: nat, len: nat)
    requires Initial(s0) && i < |s0.tasks|
    ensures DemandAgainst(s0, i, len) == Demand(History(s0), s0.tasks[i].period, len)
  {
    var h, p := History(s0), s0.tasks[i].period;
    SumEqual((j: nat) => AskedBy(s0, i, len, j), (j: nat) => DemandOf(h, p, len, j), |s0.tasks|);
  }

  lemma DeadlinesMetIsMeetsDeadlines(s0: System, i: nat)
    requires Initial(s0) && Active(s0, i)
    ensures DeadlinesMet(s0, i) <==> MeetsDeadlines(History(s0), i)
  {
    var h := History(s0);
    assert forall t: nat :: t > 0 ==> h.owed(i, t) == s0.tasks[i].capacity - Run(s0, t).tasks[i].executed;
  }

  // The exact schedulability theorem: every unblocked task meets every deadline of the run if and only if
  // every unblocked task has a window, no longer than its period, whose demand fits into it.
  lemma ExactSchedulability(s0: System)
    requires Initial(s0)
    ensures (forall i: nat :: Active(s0, i) ==> DeadlinesMet(s0, i))
       <==> (forall i: nat :: Active(s0, i) ==> HasFittingWindow(s0, i))
  {
    if forall i: nat :: Active(s0, i) ==> DeadlinesMet(s0, i) {
      forall i: nat | Active(s0, i)
        ensures HasFittingWindow(s0, i)
      {
        WindowFromRivals(s0, i);
      }
    }
    if forall i: nat :: Active(s0, i) ==> HasFittingWindow(s0, i) {
      forall i: nat | Active(s0, i)
        ensures DeadlinesMet(s0, i)
      {
        FittingWindowSuffices(s0, i);
      }
    }
  }

  // One task's window alone decides its deadlines in the positive sense: longer periods do not matter.
  lemma FittingWindowSuffices(s0: System, i: nat)
    requires Initial(s0) && Active(s0, i) && HasFittingWindow(s0, i)
    ensures DeadlinesMet(s0, i)
  {
    HistoryIsLegal(s0);
    var len: nat :| WindowFits(s0, i, len);
    DemandAgainstIsDemand(s0, i, len);
    WindowSuffices(History(s0), i, len);
    DeadlinesMetIsMeetsDeadlines(s0, i);
  }

  // The rivals of one task, itself among them, decide for themselves: they all meet their deadlines if and only if
  // each of them has a fitting window, whatever tasks of longer period there are.
  lemma ExactForRivals(s0: System, i: nat)
    requires Initial(s0) && Active(s0, i)
    ensures (forall j: nat :: Rivals(s0, i, j) ==> DeadlinesMet(s0, j))
       <==> (forall j: nat :: Rivals(s0, i, j) ==> HasFittingWindow(s0, j))
  {
    if forall j: nat :: Rivals(s0, i, j) ==> DeadlinesMet(s0, j) {
      forall j: nat | Rivals(s0, i, j)
        ensures HasFittingWindow(s0, j)
      {
        WindowFromRivals(s0, j);
      }
    }
    if forall j: nat :: Rivals(s0, i, j) ==> HasFittingWindow(s0, j) {
      forall j: nat | Rivals(s0, i, j)
        ensures DeadlinesMet(s0, j)
      {
        FittingWindowSuffices(s0, j);
      }
    }
  }

  lemma WindowFromRivals(s0: System, i: nat)
    requires Initial(s0) && Active(s0, i)
    requires forall j: nat :: Rivals(s0, i, j) ==> DeadlinesMet(s0, j)
    ensures HasFittingWindow(s0, i)
  {
    var h := History(s0);
    HistoryIsLegal(s0);
    forall j: nat | Rivals(s0, i, j)
      ensures MeetsDeadlines(h, j)
    {
      DeadlinesMetIsMeetsDeadlines(s0, j);
    }
    var len := DeadlinesNeedWindow(h, i);
    DemandAgainstIsDemand(s0, i, len);
    assert WindowFits(s0, i, len);
  }

  // Response time: whatever window fits, a job released at any multiple of the period is finished within it.
  lemma ResponseTime(s0: System, i: nat, len: nat, t: nat) returns (e: nat)
    requires Initial(s0) && Active(s0, i) && WindowFits(s0, i, len) && t % s0.tasks[i].period == 0
    ensures t < e <= t + len && Run(s0, e).tasks[i].executed == s0.tasks[i].capacity
    ensures Starts(History(s0), i, t)
  {
    var h := History(s0);
    HistoryIsLegal(s0);
    DemandAgainstIsDemand(s0, i, len);
    WindowSuffices(h, i, len);
    assert TaskRow(h, i, 0);
    e := ResponseWithinWindow(h, i, len, t);
  }

  // The least window is the exact response time of the first job, for a task whose rivals all have shorter periods and
  // meet their deadlines.
  lemma ResponseTimeIsReached(s0: System, i: nat, len: nat)
    requires Initial(s0) && Active(s0, i) && WindowFits(s0, i, len)
    requires forall l: nat :: WindowFits(s0, i, l) ==> len <= l
    requires forall j: nat :: Rivals(s0, i, j) ==> DeadlinesMet(s0, j)
    requires forall j: nat :: Rivals(s0, i, j) && j != i ==> s0.tasks[j].period < s0.tasks[i].period
    ensures forall e: nat :: 1 <= e < len ==> Run(s0, e).tasks[i].executed < s0.tasks[i].capacity
    ensures Run(s0, len).tasks[i].executed == s0.tasks[i].capacity
  {
    var h, p, c := History(s0), s0.tasks[i].period, s0.tasks[i].capacity;
    HistoryIsLegal(s0);
    forall j: nat | Rivals(s0, i, j)
      ensures MeetsDeadlines(h, j)
    {
      DeadlinesMetIsMeetsDeadlines(s0, j);
    }
    forall l: nat
      ensures Fits(h, i, l) <==> WindowFits(s0, i, l)
    {
      DemandAgainstIsDemand(s0, i, l);
    }
    LeastWindowIsReached(h, i, len);
    forall e: nat | 1 <= e <= len
      ensures PeersPaid(h, p, e) <==> h.owed(i, e) == 0
      ensures h.owed(i, e) == c - Run(s0, e).tasks[i].executed >= 0
    {
      assert TaskRow(h, i, e);
    }
  }

  lemma OneReleaseInShortWindow(len: nat, p: nat)
    requires 1 <= len <= p
    ensures Releases(len, p) == 1
  {
    ReleasesIsCeiling(len, p);
    QuotientUnique(len + p - 1, p, 1, len - 1);
  }

  // The deadline theorem: if the capacities of the unblocked tasks with period at most i's sum to at most
  // the shortest of their periods, task i meets every deadline in every run.
  lemma DeadlineTheorem(s0: System, i: nat, shortest: nat)
    requires Initial(s0) && Active(s0, i)
    requires forall j: nat :: Active(s0, j) ==> shortest <= s0.tasks[j].period
    requires Sum((j: nat) => CapacityOf(s0, i, j), |s0.tasks|) <= shortest
    ensures DeadlinesMet(s0, i)
  {
    var caps := (j: nat) => CapacityOf(s0, i, j);
    forall j: nat | j < |s0.tasks|
      ensures caps(j) >= 0
    {}
    SumAtLeast(caps, |s0.tasks|, i);
    ShortDemandIsCapacity(s0, i, shortest);
    assert WindowFits(s0, i, shortest);
    FittingWindowSuffices(s0, i);
  }

  lemma ShortDemandIsCapacity(s0: System, i: nat, shortest: nat)
    requires Initial(s0) && Active(s0, i) && shortest >= 1
    requires forall j: nat :: Active(s0, j) ==> shortest <= s0.tasks[j].period
    ensures DemandAgainst(s0, i, shortest) == Sum((j: nat) => CapacityOf(s0, i, j), |s0.tasks|)
  {
    var caps, asked := (j: nat) => CapacityOf(s0, i, j), (j: nat) => AskedBy(s0, i, shortest, j);
    forall j: nat | j < |s0.tasks|
      ensures asked(j) == caps(j)
    {
      if Active(s0, j) { OneReleaseInShortWindow(shortest, s0.tasks[j].period); }
    }
    SumEqual(asked, caps, |s0.tasks|);
  }

  lemma {:induction false} SumAtLeast(f: nat -> int, n: nat, k: nat)
    requires k < n && forall i: nat :: i < n ==> f(i) >= 0
    ensures Sum(f, n) >= f(k)
  {
    if k < n - 1 {
      SumAtLeast(f, n - 1, k);
    } else {
      SumMonotone((i: nat) => 0, f, n - 1);
      SumZero((i: nat) => 0, n - 1);
    }
  }

  // Conservation of time: the clock is the idle ticks plus all task ticks.
  lemma ClockIsAllTicks(s0: System, n: nat)
    requires Initial(s0)
    ensures Run(s0, n).time == n
    ensures n == Ticks(History(s0), NOBODY, n) + Sum((i: nat) => Ticks(History(s0), i, n), |s0.tasks|)
  {
    HistoryIsLegal(s0);
    TimeIsConserved(History(s0), n);
  }

  // The budget of one task: never more than its capacity for every period begun, and what it got is its
  // completed jobs times the capacity plus the progress of the current one.
  lemma TaskConservation(s0: System, i: nat, n: nat)
    requires Initial(s0) && Active(s0, i) && n > 0
    ensures var h, c, e := History(s0), s0.tasks[i].capacity, Run(s0, n).tasks[i].executed;
      && 0 <= e <= c
      && Ticks(h, i, n) <= c * Releases(n, s0.tasks[i].period)
      && Jobs(h, i, n) > 0
      && Ticks(h, i, n) == c * (Jobs(h, i, n) - 1) + e
  {
    var h, c, e := History(s0), s0.tasks[i].capacity, Run(s0, n).tasks[i].executed;
    RunInv(s0, n);
    HistoryIsLegal(s0);
    BudgetBound(h, i, n);
    TicksAreJobs(h, i, n);
    FirstJob(h, i, n);
    assert h.owed(i, n) == c - e;
    MulNext(c, Jobs(h, i, n) - 1);
  }

  lemma BlockedGetsNothing(s0: System, i: nat, n: nat)
    requires Initial(s0) && i < |s0.tasks| && !Active(s0, i)
    ensures Ticks(History(s0), i, n) == 0
  {
    HistoryIsLegal(s0);
    InactiveNeverRuns(History(s0), i, n);
  }

  lemma {:induction false} FirstJob(h: Ledger, i: nat, n: nat)
    requires Legal(h) && h.active(i)
    ensures n > 0 ==> Jobs(h, i, n) > 0
  {
    if n > 1 { FirstJob(h, i, n - 1); }
    assert TaskRow(h, i, 0);
  }

  // The unblocked task with strictly the shortest period is dispatched at tick t exactly when
  // t mod period < capacity, for every t and whatever the other tasks are.
  lemma ShortestPeriodRunsExactly(s0: System, i: nat, t: nat)
    requires Initial(s0) && Active(s0, i)
    requires forall j: nat :: Active(s0, j) && j != i ==> s0.tasks[i].period < s0.tasks[j].period
    ensures Dispatched(s0, t) == i <==> t % s0.tasks[i].period < s0.tasks[i].capacity
  {
    HistoryIsLegal(s0);
    ShortestRunsExactly(History(s0), i, t);
  }
}
