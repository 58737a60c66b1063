/*
 * Arithmetic in the scalar field of BLS12-381: the part of the field module
 * (fr_add, fr_sub, fr_mul, fr_inv, fr_from_uint64) that the transform calls.
 * Elements are kept in canonical form, as integers in [0, P).
 *
 * The congruence rules and the inverse are stated for an arbitrary modulus m;
 * the field operations are those rules at m = P.
 */
module Field {

  /** The scalar field modulus r of BLS12-381. */
  const P: int := 0x73eda753299d7d483339d80809a1d80553bda402fffe5bfeffffffff00000001

  /** A field element in canonical form. */
  type Fr = x: int | 0 <= x < P

  function Add(a: Fr, b: Fr): Fr { (a + b) % P }

  function Sub(a: Fr, b: Fr): Fr { (a - b) % P }

  function Mul(a: Fr, b: Fr): Fr { (a * b) % P }

  /** fr_from_uint64: the field element an unsigned integer stands for. */
  function FromU64(n: nat): (r: Fr)
    ensures n < P ==> r == n
  {
    n % P
  }

  /** fr_inv */
  function Inv(x: Fr): Fr
  {
    InvMod(x, P)
  }

  /** y is a multiplicative inverse of x modulo m. */
  predicate IsInverse(x: int, y: int, m: int)
  {
    m >= 1 && (x * y) % m == 1
  }

  /**
   * Extended Euclid: the greatest common divisor g of a and b together with
   * Bezout coefficients s, t such that s * a + t * b == g.
   */
  function ExtGcd(a: nat, b: nat): (r: (nat, int, int))
    ensures r.1 * a + r.2 * b == r.0
    decreases b
  {
    if b == 0 then (a, 1, 0)
    else
      var q := a / b;
      var (g, s, t) := ExtGcd(b, a % b);
      assert s * b + t * (a % b) == g;
      assert a == q * b + a % b;
      assert t * a + (s - q * t) * b == s * b + t * (a - q * b);
      (g, t, s - q * t)
  }

  lemma {:induction false} ExtGcdStep(a: nat, b: nat)
    requires b > 0
    ensures ExtGcd(a, b).0 == ExtGcd(b, a % b).0
  {
  }

  /** The gcd ExtGcd returns divides both of its arguments: a == g * ca, b == g * cb. */
  lemma {:induction false} ExtGcdDivides(a: nat, b: nat) returns (ca: int, cb: int)
    ensures a == ExtGcd(a, b).0 * ca && b == ExtGcd(a, b).0 * cb
    decreases b
  {
    if b == 0 {
      ca, cb := 1, 0;
    } else {
      ExtGcdStep(a, b);
      var g := ExtGcd(b, a % b).0;
      var cb', cr := ExtGcdDivides(b, a % b);
      ca, cb := CombineDivisor(a, b, g, cb', cr);
    }
  }

  lemma {:induction false} CombineDivisor(a: nat, b: nat, g: int, cb: int, cr: int) returns (ca: int, cb': int)
    requires b > 0 && b == g * cb && a % b == g * cr
    ensures a == g * ca && b == g * cb'
  {
    var q := a / b;
    assert a == q * b + a % b;
    ca, cb' := q * cb + cr, cb;
    calc {
      g * ca;
      g * (q * cb) + g * cr;
      q * (g * cb) + g * cr;
    }
  }

  /**
   * The inverse modulo m by extended Euclid: whenever x has an inverse modulo m
   * (for prime m: whenever x is not a multiple of m), the result is one.
   */
  function InvMod(x: nat, m: nat): (r: int)
    requires m >= 1
    ensures 0 <= r < m
    ensures (exists y :: IsInverse(x, y, m)) ==> IsInverse(x, r, m)
  {
    var e := ExtGcd(x, m);
    InvCorrect(x, m, e.0, e.1, e.2);
    e.1 % m
  }

  lemma {:induction false} InvCorrect(x: nat, m: nat, g: nat, s: int, t: int)
    requires m >= 1 && (g, s, t) == ExtGcd(x, m)
    ensures (exists y :: IsInverse(x, y, m)) ==> IsInverse(x, s % m, m)
  {
    if y :| IsInverse(x, y, m) {
      var cx, cm := ExtGcdDivides(x, m);
      GcdOfInvertible(x, y, m, g, cx, cm);
      BezoutInverse(x, s, t, m);
    }
  }

  /** A common divisor of x and m is 1 when x is invertible modulo m. */
  lemma {:induction false} GcdOfInvertible(x: int, y: int, m: int, g: nat, cx: int, cm: int)
    requires IsInverse(x, y, m) && x == g * cx && m == g * cm
    ensures g == 1
  {
    var q := (x * y) / m;
    assert x * y == q * m + 1;
    calc {
      g * (cx * y - q * cm);
      (g * cx) * y - q * (g * cm);
      x * y - q * m;
      1;
    }
    ProductIsOne(g, cx * y - q * cm);
  }

  lemma {:induction false} ProductIsOne(g: nat, c: int)
    requires g * c == 1
    ensures g == 1
  {
  }

  lemma {:induction false} BezoutInverse(x: int, s: int, t: int, m: int)
    requires m >= 2 && s * x + t * m == 1
    ensures IsInverse(x, s % m, m)
  {
    ModMultiple(s * x, t, m);
    ModMulLeft(s, x, m);
    assert x * (s % m) == (s % m) * x;
  }

  /** Inverses are unique among canonical residues. */
  lemma {:induction false} InverseUnique(a: int, b: int, c: int, m: int)
    requires 0 <= b < m && 0 <= c < m
    requires IsInverse(a, b, m) && IsInverse(a, c, m)
    ensures b == c
  {
    TimesUnit(b, a * c, m);
    TimesUnit(c, a * b, m);
    CommuteProducts(a, b, c);
  }

  /** Multiplying a canonical residue by something congruent to 1 leaves it unchanged. */
  lemma {:induction false} TimesUnit(x: int, u: int, m: int)
    requires 0 <= x < m && u % m == 1
    ensures (x * u) % m == x
  {
    ModMulRight(x, u, m);
    assert x * 1 == x;
  }

  lemma {:induction false} CommuteProducts(a: int, b: int, c: int)
    ensures b * (a * c) == c * (a * b)
  {
  }

  // ---- Congruences modulo m ----

  lemma {:induction false} ModMultiple(a: int, q: int, m: int)
    requires m >= 1
    ensures (a + q * m) % m == a % m
  {
    ModShift(a, q, m);
  }

  lemma {:induction false} ModAdd(a: int, b: int, m: int)
    requires m >= 1
    ensures (a + b) % m == (a % m + b % m) % m
  {
    var qa, qb := a / m, b / m;
    assert a + b == (a % m + b % m) + (qa + qb) * m;
    ModShift(a % m + b % m, qa + qb, m);
  }

  lemma {:induction false} ModSub(a: int, b: int, m: int)
    requires m >= 1
    ensures (a - b) % m == (a % m - b % m) % m
  {
    var qa, qb := a / m, b / m;
    assert a - b == (a % m - b % m) + (qa - qb) * m;
    ModShift(a % m - b % m, qa - qb, m);
  }

  lemma {:induction false} ModMul(a: int, b: int, m: int)
    requires m >= 1
    ensures (a * b) % m == ((a % m) * (b % m)) % m
  {
    ModMulLeft(a, b, m);
    ModMulRight(a % m, b, m);
  }

  lemma {:induction false} ModMulLeft(a: int, b: int, m: int)
    requires m >= 1
    ensures (a * b) % m == ((a % m) * b) % m
  {
    var q, r := a / m, a % m;
    assert a == q * m + r;
    assert a * b == r * b + (q * b) * m;
    ModShift(r * b, q * b, m);
  }

  lemma {:induction false} ModMulRight(a: int, b: int, m: int)
    requires m >= 1
    ensures (a * b) % m == (a * (b % m)) % m
  {
    ModMulLeft(b, a, m);
    assert a * b == b * a;
    assert (b % m) * a == a * (b % m);
  }

  /** Products of congruent factors are congruent. */
  lemma {:induction false} MulCong(a: int, a': int, b: int, b': int, m: int)
    requires m >= 1 && a % m == a' % m && b % m == b' % m
    ensures (a * b) % m == (a' * b') % m
  {
    ModMul(a, b, m);
    ModMul(a', b', m);
  }

  /** The remainder is the unique r in [0, n) with a == q n + r. */
  lemma {:induction false} ModUnique(a: int, n: nat, q: int, r: int)
    requires n >= 1 && a == q * n + r && 0 <= r < n
    ensures a % n == r
  {
    var q', r' := a / n, a % n;
    assert a == q' * n + r';
    assert (q - q') * n == r' - r;
    if q > q' {
      MulLe(1, q - q', n);
    } else if q < q' {
      assert (q' - q) * n == r - r';
      MulLe(1, q' - q, n);
    }
  }

  lemma {:induction false} MulLe(a: nat, b: nat, c: nat)
    requires a <= b
    ensures a * c <= b * c
  {
  }

  /** Adding a multiple of n does not change the remainder modulo n. */
  lemma {:induction false} ModShift(x: int, k: int, n: nat)
    requires n >= 1
    ensures (x + k * n) % n == x % n
  {
    var q, r := x / n, x % n;
    assert x == q * n + r;
    assert x + k * n == (q + k) * n + r;
    ModUnique(x + k * n, n, q + k, r);
  }

  // ---- Powers ----

  function Pow(b: int, e: nat): int
  {
    if e == 0 then 1 else b * Pow(b, e - 1)
  }

  lemma {:induction false} PowAdd(b: int, e1: nat, e2: nat)
    ensures Pow(b, e1 + e2) == Pow(b, e1) * Pow(b, e2)
    decreases e2
  {
    if e2 > 0 {
      PowAdd(b, e1, e2 - 1);
      calc {
        Pow(b, e1 + e2);
        b * Pow(b, e1 + e2 - 1);
        b * (Pow(b, e1) * Pow(b, e2 - 1));
        Pow(b, e1) * (b * Pow(b, e2 - 1));
        Pow(b, e1) * Pow(b, e2);
      }
    }
  }

  lemma {:induction false} PowMul(b: int, e1: nat, e2: nat)
    ensures Pow(b, e1 * e2) == Pow(Pow(b, e1), e2)
    decreases e2
  {
    if e2 > 0 {
      PowMul(b, e1, e2 - 1);
      assert e1 * e2 == e1 * (e2 - 1) + e1;
      PowAdd(b, e1 * (e2 - 1), e1);
    }
  }

  lemma {:induction false} PowOne(e: nat)
    ensures Pow(1, e) == 1
  {
    if e > 0 { PowOne(e - 1); }
  }

  /** Congruent bases have congruent powers. */
  lemma {:induction false} PowCong(a: int, b: int, e: nat, m: int)
    requires m >= 1 && a % m == b % m
    ensures Pow(a, e) % m == Pow(b, e) % m
  {
    if e > 0 {
      PowCong(a, b, e - 1, m);
      MulCong(a, b, Pow(a, e - 1), Pow(b, e - 1), m);
    }
  }

  /** (-1)^2 = 1 */
  lemma {:induction false} SquareMinusOne(m: int)
    requires m >= 2
    ensures Pow(m - 1, 2) % m == 1
  {
    var a := m - 1;
    assert Pow(a, 1) == a * Pow(a, 0) == a;
    assert Pow(a, 2) == a * Pow(a, 1);
    assert a * a == 1 + (m - 2) * m;
    ModMultiple(1, m - 2, m);
  }

  /** An odd power of -1 is -1. */
  lemma {:induction false} PowMinusOneOdd(e: nat, m: int)
    requires m >= 2 && e % 2 == 1
    ensures Pow(m - 1, e) % m == m - 1
  {
    if e > 1 {
      var x, y := Pow(m - 1, e - 2), Pow(m - 1, 2);
      PowMinusOneOdd(e - 2, m);
      PowAdd(m - 1, e - 2, 2);
      SquareMinusOne(m);
      ModUnique(m - 1, m, 0, m - 1);
      ModUnique(1, m, 0, 1);
      MulCong(x, m - 1, y, 1, m);
      assert Pow(m - 1, e) == x * y;
      assert (m - 1) * 1 == m - 1;
    } else {
      assert Pow(m - 1, 1) == (m - 1) * Pow(m - 1, 0);
    }
  }
}
