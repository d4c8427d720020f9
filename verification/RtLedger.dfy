/**
 The accounts of a scheduler run, abstracted from how a tick works: who ran when, and what each task owes.
 A task starts a job, owing its capacity, when a multiple of its period finds it owing nothing; each tick
 pays one unit of the task that runs. The rules are those RtRuns.dfy proves of every run.
 */
module RtLedger {
  import opened PowersOfTwo
  import opened Sums

  const NOBODY := -1

  datatype Ledger = Ledger(
    n: nat,
    period: nat -> nat,
    capacity: nat -> int,
    active: nat -> bool,
    who: nat -> int,
    owed: (nat, nat) -> int)

  ghost predicate Starts(h: Ledger, i: nat, t: nat) {
    h.period(i) > 0 && h.owed(i, t) == 0 && t % h.period(i) == 0
  }

  ghost predicate Owing(h: Ledger, i: nat, t: nat) {
    h.active(i) && (h.owed(i, t) > 0 || Starts(h, i, t))
  }

  // The account of one task over one tick.
  ghost predicate TaskRow(h: Ledger, i: nat, t: nat) {
    && i < h.n
    && 1 <= h.capacity(i) <= h.period(i)
    && h.owed(i, 0) == 0
    && 0 <= h.owed(i, t) <= h.capacity(i)
    && 0 <= h.owed(i, t + 1)
    && h.owed(i, t + 1) == h.owed(i, t) + (if Starts(h, i, t) then h.capacity(i) else 0)
                                        - (if h.who(t) == i then 1 else 0)
  }

  // One tick over all tasks: only an owing task runs, and none with a shorter period is kept waiting.
  ghost predicate TickRow(h: Ledger, t: nat) {
    && (h.who(t) == NOBODY || (0 <= h.who(t) < h.n && Owing(h, h.who(t), t)))
    && forall i: nat :: Owing(h, i, t) ==> h.who(t) >= 0 && h.period(h.who(t)) <= h.period(i)
  }

  ghost predicate Legal(h: Ledger) {
    && (forall i: nat, t: nat :: h.active(i) ==> TaskRow(h, i, t))
    && (forall t: nat :: TickRow(h, t))
  }

  // How many of the first n ticks went to task id (or to NOBODY).
  ghost function Ticks(h: Ledger, id: int, n: nat): nat {
    if n == 0 then 0 else Ticks(h, id, n - 1) + if h.who(n - 1) == id then 1 else 0
  }

  ghost function Jobs(h: Ledger, i: nat, n: nat): nat {
    if n == 0 then 0 else Jobs(h, i, n - 1) + if Starts(h, i, n - 1) then 1 else 0
  }

  // The number of multiples of p in [0, t).
  ghost function Releases(t: nat, p: nat): nat
    requires p > 0
  {
    if t == 0 then 0 else Releases(t - 1, p) + if (t - 1) % p == 0 then 1 else 0
  }

  // It is t / p rounded up.
  lemma {:induction false} ReleasesIsCeiling(t: nat, p: nat)
    requires p > 0
    ensures Releases(t, p) == (t + p - 1) / p
  {
    if t == 0 {
      QuotientUnique(p - 1, p, 0, p - 1);
    } else {
      ReleasesIsCeiling(t - 1, p);
      CeilingStep(t - 1, p, (t - 1) / p, (t - 1) % p);
    }
  }

  lemma CeilingStep(t: nat, p: nat, q: nat, m: nat)
    requires m < p && t == q * p + m
    ensures (t + p) / p == q + 1 && (t + p - 1) / p == if m == 0 then q else q + 1
    ensures t % p == m
  {
    QuotientUnique(t, p, q, m);
    QuotientUnique(t + p, p, q + 1, m);
    QuotientUnique(t + p - 1, p, if m == 0 then q else q + 1, if m == 0 then p - 1 else m - 1);
  }

  // ---------------------------------------------------------------- conservation and budgets

  // Every tick given to a task is part of one of its jobs.
  lemma {:induction false} TicksAreJobs(h: Ledger, i: nat, n: nat)
    requires Legal(h) && h.active(i)
    ensures Ticks(h, i, n) == h.capacity(i) * Jobs(h, i, n) - h.owed(i, n)
  {
    if n == 0 {
      assert TaskRow(h, i, 0);
    } else {
      TicksAreJobs(h, i, n - 1);
      assert TaskRow(h, i, n - 1);
      MulNext(h.capacity(i), Jobs(h, i, n - 1));
    }
  }

  lemma MulNext(c: int, j: int)
    ensures c * (j + 1) == c * j + c
  {}

  lemma {:induction false} InactiveNeverRuns(h: Ledger, i: nat, n: nat)
    requires Legal(h) && !h.active(i)
    ensures Ticks(h, i, n) == 0
  {
    if n > 0 {
      InactiveNeverRuns(h, i, n - 1);
      assert TickRow(h, n - 1);
    }
  }

  lemma {:induction false} JobsInWindow(h: Ledger, i: nat, s: nat, e: nat)
    requires Legal(h) && h.active(i) && s <= e
    requires h.period(i) > 0
    ensures 0 <= Jobs(h, i, e) - Jobs(h, i, s) <= Releases(e, h.period(i)) - Releases(s, h.period(i))
  {
    if s < e { JobsInWindow(h, i, s, e - 1); }
  }

  // No task gets more than its capacity for every period begun.
  lemma BudgetBound(h: Ledger, i: nat, n: nat)
    requires Legal(h) && h.active(i)
    requires h.period(i) > 0
    ensures Ticks(h, i, n) <= h.capacity(i) * Releases(n, h.period(i))
  {
    TicksAreJobs(h, i, n);
    JobsInWindow(h, i, 0, n);
    assert TaskRow(h, i, n);
    PaidAtMost(h.capacity(i), Jobs(h, i, n), Releases(n, h.period(i)), h.owed(i, n));
  }

  lemma PaidAtMost(c: int, jobs: int, r: int, owed: int)
    requires 0 <= c && jobs <= r && 0 <= owed
    ensures c * jobs - owed <= c * r
  {
    MulMonotone(jobs, r, c);
  }

  // The clock is the idle ticks plus all task ticks.
  lemma {:induction false} TimeIsConserved(h: Ledger, n: nat)
    requires Legal(h)
    ensures n == Ticks(h, NOBODY, n) + Sum((i: nat) => Ticks(h, i, n), h.n)
  {
    var g := (i: nat) => Ticks(h, i, n);
    if n == 0 {
      SumZero(g, h.n);
    } else {
      TimeIsConserved(h, n - 1);
      var f, d := (i: nat) => Ticks(h, i, n - 1), h.who(n - 1);
      assert TickRow(h, n - 1);
      if d == NOBODY { SumEqual(f, g, h.n); } else { SumBump(f, g, h.n, d); }
    }
  }

  // ---------------------------------------------------------------- the shortest period

  ghost predicate StrictlyShortest(h: Ledger, i: nat) {
    h.active(i) && forall j: nat :: h.active(j) && j != i ==> h.period(i) < h.period(j)
  }

  lemma ModStep(t: nat, p: nat)
    requires p > 0
    ensures (t + 1) % p == if t % p == p - 1 then 0 else t % p + 1
  {
    var q := t / p;
    if t % p == p - 1 {
      QuotientUnique(t + 1, p, q + 1, 0);
    } else {
      QuotientUnique(t + 1, p, q, t % p + 1);
    }
  }

  // It runs whenever it owes, so what it owes is the unused part of the budget of the current period.
  lemma {:induction false} ShortestOwes(h: Ledger, i: nat, t: nat)
    requires Legal(h) && StrictlyShortest(h, i)
    requires h.period(i) > 0
    ensures var m := t % h.period(i);
      h.owed(i, t) == if m == 0 || h.capacity(i) <= m then 0 else h.capacity(i) - m
  {
    if t > 0 {
      ShortestOwes(h, i, t - 1);
      ShortestPays(h, i, t - 1, (t - 1) % h.period(i));
      ModStep(t - 1, h.period(i));
    } else {
      assert TaskRow(h, i, 0);
    }
  }

  lemma ShortestPays(h: Ledger, i: nat, t: nat, m: nat)
    requires Legal(h) && StrictlyShortest(h, i)
    requires h.period(i) > 0 && m == t % h.period(i)
    requires h.owed(i, t) == if m == 0 || h.capacity(i) <= m then 0 else h.capacity(i) - m
    ensures h.owed(i, t + 1) == if h.capacity(i) <= m + 1 then 0 else h.capacity(i) - (m + 1)
    ensures h.capacity(i) <= h.period(i)
  {
    assert TaskRow(h, i, t);
    assert TickRow(h, t);
  }

  // The task with strictly the shortest period runs at tick t exactly when t mod period < capacity.
  lemma ShortestRunsExactly(h: Ledger, i: nat, t: nat)
    requires Legal(h) && StrictlyShortest(h, i)
    requires h.period(i) > 0
    ensures h.who(t) == i <==> t % h.period(i) < h.capacity(i)
  {
    ShortestOwes(h, i, t);
    assert TaskRow(h, i, t);
    assert TickRow(h, t);
  }
}
