/*
 * The transform at w^(n-1) undoes the transform at w up to a factor n:
 * transforming twice, once with the forward roots and once with the reverse
 * roots, multiplies every input by the length.
 */
module InverseProofs {
  import opened Field
  import opened Sums
  import opened Roots
  import opened FftProofs

  /** The exponent difference j - i, taken modulo n, vanishes only when j == i. */
  lemma {:induction false} ExponentVanishes(i: nat, j: nat, n: nat)
    requires i < n && j < n
    ensures ((j + (n - 1) * i) % n == 0) <==> (i == j)
  {
    assert j + (n - 1) * i == (j - i) + i * n;
    ModShift(j - i, i, n);
    if j < i {
      ModUnique(j - i, n, -1, j - i + n);
    } else {
      ModUnique(j - i, n, 0, j - i);
    }
  }

  /** k |-> w^(k j) * v^(i k) */
  function TwistTerms(w: int, v: int, i: nat, j: nat): nat -> int
  {
    (k: nat) => Pow(w, k * j) * Pow(v, i * k)
  }

  /** With v = w^(n-1), the product w^(k j) v^(i k) is w^((j + (n-1) i) k). */
  lemma {:induction false} TwistExponent(w: int, n: nat, i: nat, j: nat, k: nat)
    requires n >= 1
    ensures TwistTerms(w, Pow(w, n - 1), i, j)(k) == GeomTerms(w, j + (n - 1) * i)(k)
  {
    var a := n - 1;
    PowMul(w, a, i * k);
    PowAdd(w, k * j, a * (i * k));
    ExponentIdentity(k, j, a, i);
  }

  lemma {:induction false} ExponentIdentity(k: nat, j: nat, a: nat, i: nat)
    ensures k * j + a * (i * k) == (j + a * i) * k
  {
    assert a * (i * k) == k * (a * i);
  }

  /** w^((q n + d) k) = w^(d k) for a root w of order dividing n. */
  lemma {:induction false} GeomPeriodic(w: int, n: nat, k: nat, q: nat, d: nat, m: int)
    requires m >= 2 && Pow(w, n) % m == 1
    ensures GeomTerms(w, q * n + d)(k) % m == GeomTerms(w, d)(k) % m
  {
    assert (q * n + d) * k == n * (q * k) + d * k;
    UnityMultiple(w, n, q * k, d * k, m);
  }

  /**
   * With v = w^(n-1) and j + (n-1) i = q n + d, the product w^(k j) v^(i k)
   * is w^(d k).
   */
  lemma {:induction false} TwistIsGeom(w: int, v: int, n: nat, i: nat, j: nat, k: nat, q: nat, d: nat, m: int)
    requires n >= 1 && m >= 2 && Pow(w, n) % m == 1 && v == Pow(w, n - 1) && j + (n - 1) * i == q * n + d
    ensures TwistTerms(w, v, i, j)(k) % m == GeomTerms(w, d)(k) % m
  {
    TwistExponent(w, n, i, j, k);
    GeomPeriodic(w, n, k, q, d, m);
  }

  /** Row j of the double sum: n when j == i, and 0 otherwise, modulo m. */
  lemma {:induction false} TwistSum(w: int, n: nat, i: nat, j: nat, m: int)
    requires PrimitiveRoot(w, n, m) && i < n && j < n
    ensures Sum(n, TwistTerms(w, Pow(w, n - 1), i, j)) % m == (if i == j then n % m else 0)
  {
    var e := j + (n - 1) * i;
    var q, d := Divide(e, n);
    forall k: nat | k < n
      ensures TwistTerms(w, Pow(w, n - 1), i, j)(k) % m == GeomTerms(w, d)(k) % m
    {
      TwistIsGeom(w, Pow(w, n - 1), n, i, j, k, q, d, m);
    }
    SumCong(n, TwistTerms(w, Pow(w, n - 1), i, j), GeomTerms(w, d), m);
    ExponentVanishes(i, j, n);
    if i == j {
      GeomZero(w, n);
    } else {
      Orthogonality(w, n, d, m);
    }
  }

  /** Quotient and remainder of a division by a positive n, as naturals. */
  lemma {:induction false} Divide(e: nat, n: nat) returns (q: nat, d: nat)
    requires n >= 1
    ensures e == q * n + d && d == e % n && d < n
  {
    q, d := e / n, e % n;
  }

  /** (j, k) |-> v^(i k) * xs[j] * w^(k j): output i of the transform at v of the transform at w, unfolded. */
  function RoundTerms(xs: seq<int>, w: int, v: int, i: nat): (nat, nat) -> int
  {
    (j: nat, k: nat) => Pow(v, i * k) * PowTerms(xs, w, k)(j)
  }

  /** j |-> n * xs[i] at j == i, and 0 elsewhere. */
  function DeltaTerms(xs: seq<int>, i: nat): nat -> int
  {
    (j: nat) => if j == i && i < |xs| then |xs| * xs[i] else 0
  }

  /** Output i of the second transform is, modulo m, the double sum over k then j. */
  lemma {:induction false} OuterAsDoubleSum(xs: seq<int>, w: int, v: int, i: nat, m: int)
    requires m >= 1
    ensures Sum(|xs|, PowTerms(PowDft(xs, w, m), v, i)) % m == Sum(|xs|, ColumnSums(RoundTerms(xs, w, v, i), |xs|)) % m
  {
    var n := |xs|;
    var ys := PowDft(xs, w, m);
    var f := RoundTerms(xs, w, v, i);
    forall k: nat | k < n
      ensures PowTerms(ys, v, i)(k) % m == ColumnSums(f, n)(k) % m
    {
      var c := Pow(v, i * k);
      var total := Sum(n, PowTerms(xs, w, k));
      SumScale(n, c, PowTerms(xs, w, k), Column(f, k));
      ModUnique(total % m, m, 0, total % m);
      MulCong(total % m, total, c, c, m);
      assert total * c == c * total;
    }
    SumCong(n, PowTerms(ys, v, i), ColumnSums(f, n), m);
  }

  /** Row j of the double sum is, modulo m, n * xs[i] when j == i and 0 otherwise. */
  lemma {:induction false} RowIsDelta(xs: seq<int>, w: int, i: nat, j: nat, m: int)
    requires PrimitiveRoot(w, |xs|, m) && i < |xs| && j < |xs|
    ensures RowSums(RoundTerms(xs, w, Pow(w, |xs| - 1), i), |xs|)(j) % m == DeltaTerms(xs, i)(j) % m
  {
    var n := |xs|;
    var v := Pow(w, n - 1);
    var f := RoundTerms(xs, w, v, i);
    forall k: nat | k < n
      ensures Row(f, j)(k) == xs[j] * TwistTerms(w, v, i, j)(k)
    {
      RowTerm(xs, w, v, i, j, k);
    }
    SumScale(n, xs[j], TwistTerms(w, v, i, j), Row(f, j));
    TwistSum(w, n, i, j, m);
    ScaledDelta(xs, i, j, Sum(n, TwistTerms(w, v, i, j)), m);
  }

  /** Entry (j, k) of the double sum is xs[j] times the twisted power. */
  lemma {:induction false} RowTerm(xs: seq<int>, w: int, v: int, i: nat, j: nat, k: nat)
    requires j < |xs|
    ensures Row(RoundTerms(xs, w, v, i), j)(k) == xs[j] * TwistTerms(w, v, i, j)(k)
  {
    var a, b, x := Pow(v, i * k), Pow(w, k * j), xs[j];
    assert PowTerms(xs, w, k)(j) == x * b;
    assert RoundTerms(xs, w, v, i)(j, k) == a * (x * b);
    assert a * (x * b) == x * (b * a);
  }

  /** xs[j] times a sum that is n at j == i and 0 elsewhere, modulo m. */
  lemma {:induction false} ScaledDelta(xs: seq<int>, i: nat, j: nat, t: int, m: int)
    requires m >= 1 && i < |xs| && j < |xs| && t % m == (if i == j then |xs| % m else 0)
    ensures (xs[j] * t) % m == DeltaTerms(xs, i)(j) % m
  {
    var n := |xs|;
    if i == j {
      MulCong(xs[j], xs[j], t, n, m);
      assert xs[j] * n == n * xs[i];
    } else {
      MulCong(xs[j], xs[j], t, 0, m);
    }
  }

  /**
   * Transforming at w and then at w^(n-1) multiplies every input by n:
   * output i is n * xs[i] modulo m.
   */
  lemma {:induction false} InverseDft(xs: seq<int>, w: int, v: int, i: nat, m: int)
    requires PrimitiveRoot(w, |xs|, m) && v == Pow(w, |xs| - 1) && i < |xs|
    ensures Sum(|xs|, PowTerms(PowDft(xs, w, m), v, i)) % m == (|xs| * xs[i]) % m
  {
    var n := |xs|;
    var f := RoundTerms(xs, w, v, i);
    OuterAsDoubleSum(xs, w, v, i, m);
    SumSwap(n, n, f);
    forall j: nat | j < n
      ensures RowSums(f, n)(j) % m == DeltaTerms(xs, i)(j) % m
    {
      RowIsDelta(xs, w, i, j, m);
    }
    SumCong(n, RowSums(f, n), DeltaTerms(xs, i), m);
    SumDelta(n, DeltaTerms(xs, i), i);
  }
}
