/** Finite sums of integer functions, as the scheduler's accounting needs them. */
module Sums {

  ghost function Sum(f: nat -> int, n: nat): int {
    if n == 0 then 0 else Sum(f, n - 1) + f(n - 1)
  }

  lemma {:induction false} SumEqual(f: nat -> int, g: nat -> int, n: nat)
    requires forall i: nat :: i < n ==> f(i) == g(i)
    ensures Sum(f, n) == Sum(g, n)
  {
    if n > 0 { SumEqual(f, g, n - 1); }
  }

  // Pointwise order carries over to sums, and equal sums force pointwise equality.
  lemma {:induction false} SumMonotone(f: nat -> int, g: nat -> int, n: nat)
    requires forall i: nat :: i < n ==> f(i) <= g(i)
    ensures Sum(f, n) <= Sum(g, n)
    ensures Sum(f, n) >= Sum(g, n) ==> forall i: nat :: i < n ==> f(i) == g(i)
  {
    if n > 0 { SumMonotone(f, g, n - 1); }
  }

  lemma {:induction false} SumPlus(f: nat -> int, g: nat -> int, h: nat -> int, n: nat)
    requires forall i: nat :: i < n ==> h(i) == f(i) + g(i)
    ensures Sum(h, n) == Sum(f, n) + Sum(g, n)
  {
    if n > 0 { SumPlus(f, g, h, n - 1); }
  }

  // A sum grows by one when exactly one summand does.
  lemma {:induction false} SumBump(f: nat -> int, g: nat -> int, n: nat, k: nat)
    requires k < n
    requires forall i: nat :: i < n ==> g(i) == f(i) + (if i == k then 1 else 0)
    ensures Sum(g, n) == Sum(f, n) + 1
  {
    if k == n - 1 { SumEqual(f, g, n - 1); } else { SumBump(f, g, n - 1, k); }
  }

  lemma {:induction false} SumZero(f: nat -> int, n: nat)
    requires forall i: nat :: i < n ==> f(i) == 0
    ensures Sum(f, n) == 0
  {
    if n > 0 { SumZero(f, n - 1); }
  }
}
