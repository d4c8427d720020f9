/**
 Deadlines of legal ledgers. A task meets its deadlines when, at every positive multiple of its period, its
 previous job owes nothing. Nothing in tp1/app/rt.c tests this when a task is added; the lemmas below say
 exactly which task sets are scheduled: the exact response-time test for rate-monotonic priorities.
 */
module RtSchedulability {
  import opened RtLedger
  import opened PowersOfTwo
  import opened Sums

  // The active tasks that compete with period p.
  ghost predicate Competes(h: Ledger, p: nat, j: nat) {
    h.active(j) && h.period(j) <= p
  }

  ghost predicate MeetsDeadlines(h: Ledger, i: nat)
    requires h.period(i) > 0
  {
    forall t: nat :: t > 0 && t % h.period(i) == 0 ==> h.owed(i, t) == 0
  }

  // What one task, and all tasks competing with period p, can ask for in any window of `len` ticks.
  ghost function DemandOf(h: Ledger, p: nat, len: nat, j: nat): int {
    if Competes(h, p, j) && h.period(j) > 0 then h.capacity(j) * Releases(len, h.period(j)) else 0
  }

  ghost function Demand(h: Ledger, p: nat, len: nat): int {
    Sum((j: nat) => DemandOf(h, p, len, j), h.n)
  }

  // The window `len` passes the test for task i.
  ghost predicate Fits(h: Ledger, i: nat, len: nat) {
    1 <= len <= h.period(i) && Demand(h, h.period(i), len) <= len
  }

  // At time t no task competing with period p owes anything.
  ghost predicate Quiet(h: Ledger, p: nat, t: nat) {
    forall j: nat :: Competes(h, p, j) ==> h.owed(j, t) == 0
  }

  // ---------------------------------------------------------------- demand in windows

  lemma ReleasesInWindow(s: nat, len: nat, p: nat)
    requires p > 0
    ensures Releases(s + len, p) - Releases(s, p) <= Releases(len, p)
  {
    ReleasesIsCeiling(s + len, p);
    ReleasesIsCeiling(s, p);
    ReleasesIsCeiling(len, p);
    CeilingSubadditive(s, len, p);
  }

  lemma CeilingSubadditive(a: nat, b: nat, p: nat)
    requires p > 0
    ensures (a + b + p - 1) / p <= (a + p - 1) / p + (b + p - 1) / p
  {
    var x, y, z := (a + p - 1) / p, (b + p - 1) / p, (a + b + p - 1) / p;
    CeilingsAdd(a, b, p, x, y, z);
  }

  lemma CeilingsAdd(a: nat, b: nat, p: nat, x: int, y: int, z: int)
    requires x * p >= a && y * p >= b && z * p < a + b + p
    ensures z <= x + y
  {
    assert (x + y + 1) * p == x * p + y * p + p;
    if z >= x + y + 1 { MulMonotone(x + y + 1, z, p); }
  }

  // A task that owes nothing at s uses at most its demand in the window, less what it then still owes.
  lemma WindowBound(h: Ledger, p: nat, j: nat, s: nat, len: nat)
    requires Legal(h) && Quiet(h, p, s) && Competes(h, p, j)
    ensures Ticks(h, j, s + len) - Ticks(h, j, s) + h.owed(j, s + len) <= DemandOf(h, p, len, j)
  {
    assert TaskRow(h, j, s);
    var c, q, a, b := h.capacity(j), h.period(j), Jobs(h, j, s), Jobs(h, j, s + len);
    TicksAreJobs(h, j, s);
    TicksAreJobs(h, j, s + len);
    JobsInWindow(h, j, s, s + len);
    ReleasesInWindow(s, len, q);
    MulDifference(c, a, b, Releases(len, q));
  }

  lemma MulDifference(c: int, a: int, b: int, r: int)
    requires 0 <= c && b - a <= r
    ensures c * b - c * a <= c * r
  {
    assert c * b - c * a == c * (b - a);
    MulMonotone(b - a, r, c);
  }

  ghost function WorkOf(h: Ledger, p: nat, t: nat, j: nat): int {
    if Competes(h, p, j) then Ticks(h, j, t) else 0
  }

  // Ticks spent on competing tasks.
  ghost function Work(h: Ledger, p: nat, t: nat): int {
    Sum((j: nat) => WorkOf(h, p, t, j), h.n)
  }

  lemma WorkStep(h: Ledger, p: nat, t: nat)
    requires Legal(h) && h.who(t) >= 0 && Competes(h, p, h.who(t))
    ensures Work(h, p, t + 1) == Work(h, p, t) + 1
  {
    assert TickRow(h, t);
    SumBump((j: nat) => WorkOf(h, p, t, j), (j: nat) => WorkOf(h, p, t + 1, j), h.n, h.who(t));
  }

  // If the competing tasks had every tick of a window that fits, nothing is owed at its end.
  lemma FullWindowEndsQuiet(h: Ledger, p: nat, s: nat, len: nat)
    requires Legal(h) && Quiet(h, p, s) && Demand(h, p, len) <= len
    requires Work(h, p, s + len) == Work(h, p, s) + len
    ensures Quiet(h, p, s + len)
  {
    var before, after := (j: nat) => WorkOf(h, p, s, j), (j: nat) => WorkOf(h, p, s + len, j);
    var spent := (j: nat) => WorkOf(h, p, s + len, j) - WorkOf(h, p, s, j);
    var demand := (j: nat) => DemandOf(h, p, len, j);
    SumPlus(before, spent, after, h.n);
    forall j: nat | j < h.n
      ensures spent(j) <= demand(j)
      ensures Competes(h, p, j) ==> spent(j) + h.owed(j, s + len) <= demand(j)
    {
      assert TaskRow(h, j, s + len) || !Competes(h, p, j);
      if Competes(h, p, j) { WindowBound(h, p, j, s, len); }
    }
    SumMonotone(spent, demand, h.n);
    forall j: nat | Competes(h, p, j)
      ensures h.owed(j, s + len) == 0
    {
      assert TaskRow(h, j, s + len);
      assert spent(j) == demand(j);
    }
  }

  // ---------------------------------------------------------------- busy intervals

  // While a competing task owes work, the tick goes to a competing task.
  lemma BusyTick(h: Ledger, p: nat, t: nat, j: nat)
    requires Legal(h) && Competes(h, p, j) && Owing(h, j, t)
    ensures h.who(t) >= 0 && Competes(h, p, h.who(t))
  {
    assert TickRow(h, t);
  }

  // After a quiet moment with no competing release, the next moment is quiet too.
  lemma IdleTickStaysQuiet(h: Ledger, p: nat, t: nat)
    requires Legal(h) && Quiet(h, p, t)
    requires forall j: nat :: Competes(h, p, j) ==> !Starts(h, j, t)
    ensures Quiet(h, p, t + 1)
  {
    forall j: nat | Competes(h, p, j)
      ensures h.owed(j, t + 1) == 0
    {
      assert TaskRow(h, j, t);
    }
  }

  // Within any window that fits, a quiet moment follows a quiet moment.
  lemma NextQuiet(h: Ledger, p: nat, s: nat, len: nat) returns (e: nat)
    requires Legal(h) && Quiet(h, p, s)
    requires 1 <= len && Demand(h, p, len) <= len
    ensures s < e <= s + len && Quiet(h, p, e)
  {
    if forall j: nat :: Competes(h, p, j) ==> !Starts(h, j, s) {
      IdleTickStaysQuiet(h, p, s);
      return s + 1;
    }
    var first: nat :| Competes(h, p, first) && Starts(h, first, s);
    BusyTick(h, p, s, first);
    WorkStep(h, p, s);
    e := s + 1;
    while e < s + len && !Quiet(h, p, e)
      invariant s < e <= s + len
      invariant Work(h, p, e) == Work(h, p, s) + (e - s)
    {
      var j: nat :| Competes(h, p, j) && h.owed(j, e) != 0;
      assert TaskRow(h, j, e);
      BusyTick(h, p, e, j);
      WorkStep(h, p, e);
      e := e + 1;
    }
    if e == s + len { FullWindowEndsQuiet(h, p, s, len); }
  }

  // The last quiet moment before any time is less than one window away.
  lemma {:induction false} RecentQuiet(h: Ledger, p: nat, len: nat, t: nat) returns (e: nat)
    requires Legal(h)
    requires 1 <= len && Demand(h, p, len) <= len
    ensures e <= t < e + len && Quiet(h, p, e)
  {
    if t == 0 {
      forall j: nat | Competes(h, p, j) ensures h.owed(j, 0) == 0 { assert TaskRow(h, j, 0); }
      return 0;
    }
    e := RecentQuiet(h, p, len, t - 1);
    if t == e + len { e := NextQuiet(h, p, e, len); }
  }

  // Owing nothing lasts until the next release.
  lemma {:induction false} StaysPaid(h: Ledger, i: nat, e: nat, t: nat)
    requires Legal(h) && h.active(i) && h.period(i) > 0
    requires e <= t && h.owed(i, e) == 0
    requires forall u: nat :: e <= u < t ==> u % h.period(i) != 0
    ensures h.owed(i, t) == 0
  {
    if e < t {
      StaysPaid(h, i, e, t - 1);
      assert TaskRow(h, i, t - 1);
    }
  }

  // Multiples of p are p apart.
  lemma NoMultipleBetween(p: nat, t: nat, u: nat)
    requires p > 0 && t % p == 0 && u < t < u + p
    ensures u % p != 0
  {
    var a, b := t / p, u / p;
    assert t == p * a;
    assert p * (b + 1) == p * b + p;
    if a <= b { MulMonotone(a, b, p); } else { MulMonotone(b + 1, a, p); }
  }

  // Sufficiency: one window that fits is enough for every deadline of task i, whatever tasks with longer
  // periods do.
  lemma WindowSuffices(h: Ledger, i: nat, len: nat)
    requires Legal(h) && h.active(i) && h.period(i) > 0 && Fits(h, i, len)
    ensures MeetsDeadlines(h, i)
  {
    var p := h.period(i);
    forall t: nat | t > 0 && t % p == 0
      ensures h.owed(i, t) == 0
    {
      var e := RecentQuiet(h, p, len, t);
      forall u: nat | e <= u < t ensures u % p != 0 { NoMultipleBetween(p, t, u); }
      assert Competes(h, p, i);
      StaysPaid(h, i, e, t);
    }
  }

  // Response time: a job started at t is finished within any window that fits.
  lemma ResponseWithinWindow(h: Ledger, i: nat, len: nat, t: nat) returns (e: nat)
    requires Legal(h) && h.active(i) && Fits(h, i, len)
    ensures t < e <= t + len && h.owed(i, e) == 0
  {
    e := RecentQuiet(h, h.period(i), len, t);
    while e <= t
      invariant e <= t + len && Quiet(h, h.period(i), e)
      decreases t + len - e
    {
      e := NextQuiet(h, h.period(i), e, len);
    }
    assert Competes(h, h.period(i), i);
  }

  // ---------------------------------------------------------------- necessity

  // When no deadline is missed, every release starts a job.
  lemma {:induction false} NoReleaseIsSkipped(h: Ledger, j: nat, t: nat)
    requires Legal(h) && h.active(j) && h.period(j) > 0 && MeetsDeadlines(h, j)
    ensures Jobs(h, j, t) == Releases(t, h.period(j))
  {
    if t > 0 {
      NoReleaseIsSkipped(h, j, t - 1);
      assert TaskRow(h, j, 0);
    }
  }

  lemma WorkAtMostTime(h: Ledger, p: nat, t: nat)
    requires Legal(h)
    ensures Work(h, p, t) <= t
  {
    TimeIsConserved(h, t);
    SumMonotone((j: nat) => WorkOf(h, p, t, j), (j: nat) => Ticks(h, j, t), h.n);
  }

  // At a quiet moment of a run without misses, the demand so far has been served.
  lemma QuietMomentFits(h: Ledger, p: nat, t: nat)
    requires Legal(h) && Quiet(h, p, t)
    requires forall j: nat :: Competes(h, p, j) ==> h.period(j) > 0 && MeetsDeadlines(h, j)
    ensures Demand(h, p, t) <= t
  {
    var served, demand := (j: nat) => WorkOf(h, p, t, j), (j: nat) => DemandOf(h, p, t, j);
    forall j: nat | j < h.n
      ensures served(j) == demand(j)
    {
      if Competes(h, p, j) { TicksAreJobs(h, j, t); NoReleaseIsSkipped(h, j, t); }
    }
    SumEqual(served, demand, h.n);
    WorkAtMostTime(h, p, t);
  }

  // No task of period exactly p owes anything at time t.
  ghost predicate PeersPaid(h: Ledger, p: nat, t: nat) {
    forall j: nat :: h.active(j) && h.period(j) == p ==> h.owed(j, t) == 0
  }

  // The first time after 0 at which the tasks of period p have all finished their first job.
  lemma FirstPeersPaid(h: Ledger, p: nat) returns (t: nat)
    requires Legal(h) && p > 0
    requires forall j: nat :: h.active(j) && h.period(j) == p ==> MeetsDeadlines(h, j)
    ensures 1 <= t <= p && PeersPaid(h, p, t)
    ensures forall u: nat :: 1 <= u < t ==> !PeersPaid(h, p, u)
  {
    QuotientUnique(p, p, 1, 0);
    assert PeersPaid(h, p, p);
    t := 1;
    while !PeersPaid(h, p, t)
      invariant 1 <= t <= p
      invariant forall u: nat :: 1 <= u < t ==> !PeersPaid(h, p, u)
      decreases p - t
    {
      t := t + 1;
    }
  }

  // The tick before that moment went to a task of period p, so nothing with a shorter period was owed.
  lemma FirstPeersPaidIsQuiet(h: Ledger, i: nat, t: nat)
    requires Legal(h) && h.active(i)
    requires 1 <= t <= h.period(i) && PeersPaid(h, h.period(i), t)
    requires t > 1 ==> !PeersPaid(h, h.period(i), t - 1)
    ensures Quiet(h, h.period(i), t)
  {
    var p, last := h.period(i), i;
    if t > 1 {
      last :| h.active(last) && h.period(last) == p && h.owed(last, t - 1) != 0;
    }
    assert TaskRow(h, last, t - 1);
    assert h.who(t - 1) == last;
    assert TickRow(h, t - 1);
    forall j: nat | Competes(h, p, j)
      ensures h.owed(j, t) == 0
    {
      assert TaskRow(h, j, t - 1);
    }
  }

  // Necessity: if every task competing with task i meets its deadlines, some window fits.
  lemma DeadlinesNeedWindow(h: Ledger, i: nat) returns (len: nat)
    requires Legal(h) && h.active(i) && h.period(i) > 0
    requires forall j: nat :: Competes(h, h.period(i), j) ==> h.period(j) > 0 && MeetsDeadlines(h, j)
    ensures Fits(h, i, len)
  {
    len := FirstPeersPaid(h, h.period(i));
    FirstPeersPaidIsQuiet(h, i, len);
    QuietMomentFits(h, h.period(i), len);
  }

  // The least fitting window is the response time of the first job: before its end a task of period exactly p still
  // owes, at its end none does.
  lemma LeastWindowIsReached(h: Ledger, i: nat, len: nat)
    requires Legal(h) && h.active(i) && Fits(h, i, len)
    requires forall l: nat :: Fits(h, i, l) ==> len <= l
    requires forall j: nat :: Competes(h, h.period(i), j) ==> h.period(j) > 0 && MeetsDeadlines(h, j)
    ensures forall e: nat :: 1 <= e < len ==> !PeersPaid(h, h.period(i), e)
    ensures PeersPaid(h, h.period(i), len)
  {
    var p := h.period(i);
    var t := FirstPeersPaid(h, p);
    FirstPeersPaidIsQuiet(h, i, t);
    QuietMomentFits(h, p, t);
    assert Fits(h, i, t);
    forall j: nat | h.active(j) && h.period(j) == p
      ensures h.owed(j, len) == 0
    {
      FinishedByWindow(h, j, len);
    }
  }

  lemma FinishedByWindow(h: Ledger, j: nat, len: nat)
    requires Legal(h) && h.active(j) && h.period(j) > 0 && Fits(h, j, len)
    ensures h.owed(j, len) == 0
  {
    var p := h.period(j);
    var e := ResponseWithinWindow(h, j, len, 0);
    forall u: nat | e <= u < len ensures u % p != 0 { QuotientUnique(u, p, 0, u); }
    StaysPaid(h, j, e, len);
  }
}
