/*
 * Finite sums f(0) + ... + f(n-1) over the integers, and the rules for
 * rearranging them that the transform proofs use.
 */
module Sums {
  import opened Field

  /** The sum f(0) + f(1) + ... + f(n-1). */
  function Sum(n: nat, f: nat -> int): int
  {
    if n == 0 then 0 else Sum(n - 1, f) + f(n - 1)
  }

  lemma {:induction false} SumExt(n: nat, f: nat -> int, g: nat -> int)
    requires forall k: nat :: k < n ==> f(k) == g(k)
    ensures Sum(n, f) == Sum(n, g)
  {
    if n > 0 { SumExt(n - 1, f, g); }
  }

  /** Sums of termwise congruent terms are congruent modulo m. */
  lemma {:induction false} SumCong(n: nat, f: nat -> int, g: nat -> int, m: int)
    requires m >= 1 && forall k: nat :: k < n ==> f(k) % m == g(k) % m
    ensures Sum(n, f) % m == Sum(n, g) % m
  {
    if n > 0 {
      SumCong(n - 1, f, g, m);
      ModAdd(Sum(n - 1, f), f(n - 1), m);
      ModAdd(Sum(n - 1, g), g(n - 1), m);
    }
  }

  lemma {:induction false} SumScale(n: nat, c: int, f: nat -> int, g: nat -> int)
    requires forall k: nat :: k < n ==> g(k) == c * f(k)
    ensures Sum(n, g) == c * Sum(n, f)
  {
    if n > 0 {
      SumScale(n - 1, c, f, g);
      assert c * Sum(n, f) == c * Sum(n - 1, f) + c * f(n - 1);
    }
  }

  lemma {:induction false} SumAdd(n: nat, f: nat -> int, g: nat -> int, h: nat -> int)
    requires forall k: nat :: k < n ==> h(k) == f(k) + g(k)
    ensures Sum(n, h) == Sum(n, f) + Sum(n, g)
  {
    if n > 0 { SumAdd(n - 1, f, g, h); }
  }

  /** A sum over [0, 2h) splits into its even-indexed and odd-indexed terms. */
  lemma {:induction false} SumEvenOdd(h: nat, f: nat -> int, fe: nat -> int, fo: nat -> int)
    requires forall k: nat :: k < h ==> fe(k) == f(2 * k) && fo(k) == f(2 * k + 1)
    ensures Sum(2 * h, f) == Sum(h, fe) + Sum(h, fo)
  {
    if h > 0 {
      SumEvenOdd(h - 1, f, fe, fo);
      assert Sum(2 * h, f) == Sum(2 * h - 2, f) + f(2 * h - 2) + f(2 * h - 1);
    }
  }

  /** A sum over [0, a + b) splits into the first a terms and the b terms after them. */
  lemma {:induction false} SumSplit(a: nat, b: nat, f: nat -> int, g: nat -> int)
    requires forall k: nat :: k < b ==> g(k) == f(a + k)
    ensures Sum(a + b, f) == Sum(a, f) + Sum(b, g)
  {
    if b > 0 { SumSplit(a, b - 1, f, g); }
  }

  /** k |-> c * f(k) */
  function Times(c: int, f: nat -> int): nat -> int { (k: nat) => c * f(k) }

  /** k |-> f(a + k) */
  function Shift(f: nat -> int, a: nat): nat -> int { (k: nat) => f(a + k) }

  /** A sum over [0, a + b) is the sum over [0, a) plus the sum of f shifted by a over [0, b). */
  lemma {:induction false} SumShift(a: nat, b: nat, f: nat -> int)
    ensures Sum(a + b, f) == Sum(a, f) + Sum(b, Shift(f, a))
  {
    SumSplit(a, b, f, Shift(f, a));
  }

  /** k |-> f(2 k) */
  function EvenPart(f: nat -> int): nat -> int { (k: nat) => f(2 * k) }

  /** k |-> f(2 k + 1) */
  function OddPart(f: nat -> int): nat -> int { (k: nat) => f(2 * k + 1) }

  lemma {:induction false} SumEvens(h: nat, f: nat -> int)
    ensures Sum(2 * h, f) == Sum(h, EvenPart(f)) + Sum(h, OddPart(f))
  {
    SumEvenOdd(h, f, EvenPart(f), OddPart(f));
  }

  /** A sum whose terms vanish except at index i. */
  lemma {:induction false} SumDelta(n: nat, f: nat -> int, i: nat)
    requires i < n
    requires forall k: nat :: k < n && k != i ==> f(k) == 0
    ensures Sum(n, f) == f(i)
  {
    if n - 1 != i {
      SumDelta(n - 1, f, i);
    } else {
      SumZero(n - 1, f);
    }
  }

  lemma {:induction false} SumZero(n: nat, f: nat -> int)
    requires forall k: nat :: k < n ==> f(k) == 0
    ensures Sum(n, f) == 0
  {
    if n > 0 { SumZero(n - 1, f); }
  }

  /** j |-> F(j, k) */
  function Column(F: (nat, nat) -> int, k: nat): nat -> int { (j: nat) => F(j, k) }

  /** k |-> F(j, k) */
  function Row(F: (nat, nat) -> int, j: nat): nat -> int { (k: nat) => F(j, k) }

  /** k |-> F(0, k) + ... + F(m-1, k) */
  function ColumnSums(F: (nat, nat) -> int, m: nat): nat -> int { (k: nat) => Sum(m, Column(F, k)) }

  /** j |-> F(j, 0) + ... + F(j, n-1) */
  function RowSums(F: (nat, nat) -> int, n: nat): nat -> int { (j: nat) => Sum(n, Row(F, j)) }

  /** The two orders of summing a double sum agree. */
  lemma {:induction false} SumSwap(n: nat, m: nat, F: (nat, nat) -> int)
    ensures Sum(n, ColumnSums(F, m)) == Sum(m, RowSums(F, n))
  {
    if n > 0 {
      SumSwap(n - 1, m, F);
      assert Sum(n, ColumnSums(F, m)) == Sum(n - 1, ColumnSums(F, m)) + Sum(m, Column(F, n - 1));
      forall j: nat | j < m
        ensures RowSums(F, n)(j) == RowSums(F, n - 1)(j) + Column(F, n - 1)(j)
      {
        assert Sum(n, Row(F, j)) == Sum(n - 1, Row(F, j)) + Row(F, j)(n - 1);
      }
      SumAdd(m, RowSums(F, n - 1), Column(F, n - 1), RowSums(F, n));
    } else {
      SumZero(m, RowSums(F, 0));
    }
  }
}
