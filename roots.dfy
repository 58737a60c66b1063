/*
 * Roots of unity of power-of-two order modulo m, and the facts
 * about them the transform relies on: squaring halves the order, the second
 * half of the powers is the negation of the first, powers repeat with the
 * order, and the sum of the powers of a non-trivial root vanishes.
 */
module Roots {
  import opened Field
  import opened Sums
  import opened Ntt

  /**
   * w is a root of unity of order exactly n modulo m, for n a power of two:
   * w^n = 1 and, when n >= 2, w^(n/2) = -1.
   */
  predicate PrimitiveRoot(w: int, n: nat, m: int)
  {
    m >= 2 && IsPowerOfTwo(n) && Pow(w, n) % m == 1 && (n >= 2 ==> Pow(w, n / 2) % m == m - 1)
  }

  /** A modulus in which 2 is invertible and -1 differs from 1, as P is. */
  predicate OddModulus(m: int)
  {
    m >= 3 && m % 2 == 1
  }

  /** A power of two other than 1 is twice its half. */
  lemma {:induction false} EvenPowerOfTwo(n: nat)
    requires IsPowerOfTwo(n) && n >= 2
    ensures n == 2 * (n / 2) && IsPowerOfTwo(n / 2)
  {
  }

  /** Every power of a number congruent to 1 is congruent to 1. */
  lemma {:induction false} PowOfOne(b: int, q: nat, m: int)
    requires m >= 2 && b % m == 1
    ensures Pow(b, q) % m == 1
  {
    ModUnique(1, m, 0, 1);
    PowCong(b, 1, q, m);
    PowOne(q);
  }

  /** Powers of a root of unity of order n repeat with period n. */
  lemma {:induction false} PowPeriodic(w: int, n: nat, e: nat, m: int)
    requires n >= 1 && m >= 2 && Pow(w, n) % m == 1
    ensures Pow(w, e) % m == Pow(w, e % n) % m
    decreases e
  {
    if e < n {
      ModUnique(e, n, 0, e);
    } else {
      PowPeriodic(w, n, e - n, m);
      ModShift(e - n, 1, n);
      PowAdd(w, n, e - n);
      ModUnique(1, m, 0, 1);
      MulCong(Pow(w, n), 1, Pow(w, e - n), Pow(w, e - n), m);
    }
  }

  /** For a root u of order dividing n, u^(n q + r) = u^r. */
  lemma {:induction false} UnityMultiple(u: int, n: nat, q: nat, r: nat, m: int)
    requires m >= 2 && Pow(u, n) % m == 1
    ensures Pow(u, n * q + r) % m == Pow(u, r) % m
  {
    PowAdd(u, n * q, r);
    PowMul(u, n, q);
    PowOfOne(Pow(u, n), q, m);
    ModUnique(1, m, 0, 1);
    MulCong(Pow(u, n * q), 1, Pow(u, r), Pow(u, r), m);
  }

  lemma {:induction false} PowSquare(w: int, e: nat)
    ensures Pow(w * w, e) == Pow(w, 2 * e)
  {
    PowMul(w, 2, e);
    assert Pow(w, 1) == w;
  }

  /** Squaring a root of order n gives a root of order n / 2. */
  lemma {:induction false} SquareIsPrimitive(w: int, n: nat, m: int)
    requires PrimitiveRoot(w, n, m) && n >= 2
    ensures PrimitiveRoot(w * w, n / 2, m)
  {
    var h := n / 2;
    EvenPowerOfTwo(n);
    PowSquare(w, h);
    if h >= 2 {
      EvenPowerOfTwo(h);
      PowSquare(w, h / 2);
    }
  }

  /** w^(n/2 + i) = -w^i for a root of order n >= 2. */
  lemma {:induction false} HalfTurn(w: int, n: nat, i: nat, m: int)
    requires PrimitiveRoot(w, n, m) && n >= 2
    ensures Pow(w, n / 2 + i) % m == ((m - 1) * Pow(w, i)) % m
  {
    PowAdd(w, n / 2, i);
    ModUnique(m - 1, m, 0, m - 1);
    MulCong(Pow(w, n / 2), m - 1, Pow(w, i), Pow(w, i), m);
  }

  /** k |-> w^(d * k) */
  function GeomTerms(w: int, d: nat): nat -> int
  {
    (k: nat) => Pow(w, d * k)
  }

  /** The n powers of w^0 sum to n. */
  lemma {:induction false} GeomZero(w: int, n: nat)
    ensures Sum(n, GeomTerms(w, 0)) == n
  {
    if n > 0 {
      GeomZero(w, n - 1);
      assert GeomTerms(w, 0)(n - 1) == Pow(w, 0);
    }
  }

  /** The powers w^(d (h + k)) are w^(d h) times the powers w^(d k). */
  lemma {:induction false} GeomShift(w: int, h: nat, d: nat)
    ensures Sum(h, Shift(GeomTerms(w, d), h)) == Pow(w, d * h) * Sum(h, GeomTerms(w, d))
  {
    var g := GeomTerms(w, d);
    forall k: nat | k < h
      ensures Shift(g, h)(k) == Pow(w, d * h) * g(k)
    {
      assert d * (h + k) == d * h + d * k;
      PowAdd(w, d * h, d * k);
    }
    SumScale(h, Pow(w, d * h), g, Shift(g, h));
  }

  /** The 2h powers of w^d are the first h of them times 1 + w^(d h). */
  lemma {:induction false} GeomHalves(w: int, h: nat, d: nat)
    ensures Sum(2 * h, GeomTerms(w, d)) == Sum(h, GeomTerms(w, d)) * (1 + Pow(w, d * h))
  {
    SumShift(h, h, GeomTerms(w, d));
    GeomShift(w, h, d);
    Distribute(Sum(h, GeomTerms(w, d)), Pow(w, d * h));
  }

  lemma {:induction false} Distribute(s: int, c: int)
    ensures s + c * s == s * (1 + c)
  {
  }

  /** The powers of w^(2e) are the powers of (w^2)^e. */
  lemma {:induction false} GeomSquare(w: int, h: nat, e: nat)
    ensures Sum(h, GeomTerms(w, 2 * e)) == Sum(h, GeomTerms(w * w, e))
  {
    forall k: nat | k < h
      ensures GeomTerms(w, 2 * e)(k) == GeomTerms(w * w, e)(k)
    {
      assert (2 * e) * k == 2 * (e * k);
      PowSquare(w, e * k);
    }
    SumExt(h, GeomTerms(w, 2 * e), GeomTerms(w * w, e));
  }

  /** For odd d, w^(d n/2) = -1, so 1 + w^(d n/2) vanishes. */
  lemma {:induction false} OddHalfPower(w: int, n: nat, d: nat, m: int)
    requires n >= 2 && m >= 2 && Pow(w, n / 2) % m == m - 1 && d % 2 == 1
    ensures (1 + Pow(w, d * (n / 2))) % m == 0
  {
    var h := n / 2;
    assert d * h == h * d;
    PowMul(w, h, d);
    ModUnique(m - 1, m, 0, m - 1);
    PowCong(Pow(w, h), m - 1, d, m);
    PowMinusOneOdd(d, m);
    ModAdd(1, Pow(w, d * h), m);
    ModUnique(1, m, 0, 1);
    ModUnique(m, m, 1, 0);
  }

  /** A product with a factor divisible by m is divisible by m. */
  lemma {:induction false} ZeroFactor(a: int, b: int, m: int)
    requires m >= 1 && (a % m == 0 || b % m == 0)
    ensures (a * b) % m == 0
  {
    ModMul(a, b, m);
    assert (a % m) * (b % m) == 0;
  }

  /**
   * Orthogonality of the powers: for a root w of order n and 0 < d < n, the
   * sum of w^(d k) over k < n vanishes.
   */
  lemma {:induction false} Orthogonality(w: int, n: nat, d: nat, m: int)
    requires PrimitiveRoot(w, n, m) && 0 < d < n
    ensures Sum(n, GeomTerms(w, d)) % m == 0
    decreases n
  {
    var h := n / 2;
    EvenPowerOfTwo(n);
    GeomHalves(w, h, d);
    if d % 2 == 1 {
      OddHalfPower(w, n, d, m);
    } else {
      GeomSquare(w, h, d / 2);
      SquareIsPrimitive(w, n, m);
      Orthogonality(w * w, h, d / 2, m);
    }
    ZeroFactor(Sum(h, GeomTerms(w, d)), 1 + Pow(w, d * h), m);
  }

  /** (m + 1) / 2 is the inverse of 2 modulo an odd m. */
  lemma {:induction false} InverseOfTwo(m: int)
    requires OddModulus(m)
    ensures IsInverse(2, (m + 1) / 2, m)
  {
    assert 2 * ((m + 1) / 2) == 1 + 1 * m;
    ModMultiple(1, 1, m);
    ModUnique(1, m, 0, 1);
  }

  /** If y inverts k then y / 2 inverts 2 k. */
  lemma {:induction false} InverseOfDouble(k: nat, y: int, m: int)
    requires OddModulus(m) && IsInverse(k % m, y, m)
    ensures IsInverse((2 * k) % m, y * ((m + 1) / 2), m)
  {
    var half := (m + 1) / 2;
    InverseOfTwo(m);
    ModMulLeft(2 * k, y * half, m);
    assert (2 * k) * (y * half) == (k * y) * (2 * half);
    ModMulLeft(k, y, m);
    ModUnique(1, m, 0, 1);
    MulCong(k * y, 1, 2 * half, 1, m);
  }

  /** Every power of two has an inverse modulo an odd m. */
  lemma {:induction false} InverseOfPowerOfTwo(n: nat, m: int) returns (y: int)
    requires OddModulus(m) && IsPowerOfTwo(n)
    ensures IsInverse(n % m, y, m)
    decreases n
  {
    if n == 1 {
      ModUnique(1, m, 0, 1);
      y := 1;
    } else {
      EvenPowerOfTwo(n);
      var ym := InverseOfPowerOfTwo(n / 2, m);
      InverseOfDouble(n / 2, ym, m);
      y := ym * ((m + 1) / 2);
    }
  }
}
