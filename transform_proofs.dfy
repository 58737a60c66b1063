/*
 * What fft_fr promises about a correctly built FFTSettings: the forward
 * transform is the discrete Fourier transform at the root of unity of order n
 * that the table holds at stride maxWidth / n, the inverse transform undoes it
 * (in both orders), the result does not depend on which settings object of
 * sufficient width is used, and a transform of length one is the identity.
 *
 * Every statement holds modulo any odd m; fft_fr works modulo P, which is odd.
 */
module TransformProofs {
  import opened Field
  import opened Sums
  import opened Ntt
  import opened Roots
  import opened FftProofs
  import opened InverseProofs

  /**
   * A settings object as the settings constructor builds it from a root w of
   * order maxWidth modulo m: the expanded table holds the powers of w and the
   * reverse table their canonical inverses.
   */
  predicate ValidSettings(fs: Settings, w: int, m: int)
  {
    && OddModulus(m)
    && TablesCover(fs)
    && PrimitiveRoot(w, fs.maxWidth, m)
    && (forall k :: 0 <= k < fs.maxWidth ==> fs.expandedRoots[k] == Pow(w, k) % m)
    && (forall k :: 0 <= k < fs.maxWidth ==> fs.reverseRoots[k] < m && IsInverse(fs.expandedRoots[k], fs.reverseRoots[k], m))
  }

  /** The field modulus is odd, so every statement below applies to fft_fr. */
  lemma ModulusIsOdd()
    ensures OddModulus(P)
  {
  }

  /** An exact quotient. */
  lemma {:induction false} DivExact(a: int, n: nat, q: int)
    requires n >= 1 && a == q * n
    ensures a / n == q
  {
    ModUnique(a, n, q, 0);
    assert (a / n - q) * n == 0;
  }

  /** A smaller power of two divides a larger one. */
  lemma {:induction false} PowerOfTwoDivides(n: nat, k: nat) returns (q: nat)
    requires IsPowerOfTwo(n) && IsPowerOfTwo(k) && n <= k
    ensures k == q * n && k / n == q
    decreases n
  {
    if n == 1 {
      q := k;
    } else {
      EvenPowerOfTwo(n);
      EvenPowerOfTwo(k);
      var q' := PowerOfTwoDivides(n / 2, k / 2);
      q := q';
      assert k == 2 * (k / 2) == 2 * (q' * (n / 2)) == q' * (2 * (n / 2));
    }
    DivExact(k, n, q);
  }

  /** For k = s n with n even and k positive, s (n / 2) = k / 2 and n <= k. */
  lemma {:induction false} HalfProduct(k: nat, n: nat, s: nat)
    requires k == s * n && n == 2 * (n / 2) && k >= 1
    ensures s * (n / 2) == k / 2 && n <= k
  {
    assert k == 2 * (s * (n / 2));
    MulLe(1, s, n);
  }

  /** The entries the transform reads at stride maxWidth / n are the powers of a root of order n. */
  lemma {:induction false} StrideRoot(fs: Settings, w: int, n: nat, m: int)
    requires ValidSettings(fs, w, m) && ValidLength(n, fs.maxWidth)
    ensures (fs.maxWidth / n) * n == fs.maxWidth
    ensures PrimitiveRoot(Pow(w, fs.maxWidth / n), n, m)
  {
    var width := fs.maxWidth;
    var s := PowerOfTwoDivides(n, width);
    PowMul(w, s, n);
    if n >= 2 {
      EvenPowerOfTwo(n);
      HalfProduct(width, n, s);
      PowMul(w, s, n / 2);
    }
  }

  /** The forward table at stride maxWidth / n holds the powers of w^(maxWidth / n). */
  lemma {:induction false} ForwardTable(fs: Settings, w: int, n: nat, m: int)
    requires ValidSettings(fs, w, m) && ValidLength(n, fs.maxWidth)
    ensures n / 2 == 0 || (n / 2 - 1) * (fs.maxWidth / n) < fs.maxWidth
    ensures PowersOf(View(fs.expandedRoots, 0, fs.maxWidth / n, n / 2), Pow(w, fs.maxWidth / n), m)
  {
    var s := fs.maxWidth / n;
    StrideBound(n, fs.maxWidth);
    forall k | 0 <= k < n / 2
      ensures View(fs.expandedRoots, 0, s, n / 2)[k] == Pow(Pow(w, s), k) % m
    {
      MulLe(k, n / 2 - 1, s);
      assert k * s == s * k;
      PowMul(w, s, k);
    }
  }

  /** (u^(n-1))^n = 1 */
  lemma {:induction false} InverseRootUnity(u: int, n: nat, m: int)
    requires n >= 1 && m >= 2 && Pow(u, n) % m == 1
    ensures Pow(Pow(u, n - 1), n) % m == 1
  {
    PowMul(u, n - 1, n);
    assert (n - 1) * n == n * (n - 1);
    PowMul(u, n, n - 1);
    PowOfOne(Pow(u, n), n - 1, m);
  }

  /** (u^(n-1))^(n/2) = -1 */
  lemma {:induction false} InverseRootHalf(u: int, n: nat, m: int)
    requires PrimitiveRoot(u, n, m) && n >= 2
    ensures Pow(Pow(u, n - 1), n / 2) % m == m - 1
  {
    EvenPowerOfTwo(n);
    var h := n / 2;
    PowMul(u, n - 1, h);
    HalfExponent(n, h);
    UnityMultiple(u, n, h - 1, h, m);
  }

  /** (n - 1) (n / 2) = n (n / 2 - 1) + n / 2 */
  lemma {:induction false} HalfExponent(n: nat, h: nat)
    requires n == 2 * h && h >= 1
    ensures (n - 1) * h == n * (h - 1) + h
  {
  }

  /** u^(n-1) is a root of order n when u is. */
  lemma {:induction false} InverseRootPrimitive(u: int, n: nat, m: int)
    requires PrimitiveRoot(u, n, m)
    ensures PrimitiveRoot(Pow(u, n - 1), n, m)
  {
    InverseRootUnity(u, n, m);
    if n >= 2 {
      InverseRootHalf(u, n, m);
    }
  }

  /** u^k and (u^(n-1))^k are inverse to each other. */
  lemma {:induction false} InversePowers(u: int, n: nat, k: nat, m: int)
    requires PrimitiveRoot(u, n, m)
    ensures IsInverse(Pow(u, k) % m, Pow(Pow(u, n - 1), k) % m, m)
  {
    PowMul(u, n - 1, k);
    PowAdd(u, k, (n - 1) * k);
    assert k + (n - 1) * k == n * k;
    PowMul(u, n, k);
    PowOfOne(Pow(u, n), k, m);
    ModMul(Pow(u, k), Pow(Pow(u, n - 1), k), m);
  }

  /** The reverse table at stride maxWidth / n holds the powers of the inverse root. */
  lemma {:induction false} ReverseTable(fs: Settings, w: int, n: nat, m: int)
    requires ValidSettings(fs, w, m) && ValidLength(n, fs.maxWidth)
    ensures n / 2 == 0 || (n / 2 - 1) * (fs.maxWidth / n) < fs.maxWidth
    ensures PowersOf(View(fs.reverseRoots, 0, fs.maxWidth / n, n / 2), Pow(Pow(w, fs.maxWidth / n), n - 1), m)
  {
    var s := fs.maxWidth / n;
    var u := Pow(w, s);
    StrideRoot(fs, w, n, m);
    ForwardTable(fs, w, n, m);
    forall k | 0 <= k < n / 2
      ensures View(fs.reverseRoots, 0, s, n / 2)[k] == Pow(Pow(u, n - 1), k) % m
    {
      MulLe(k, n / 2 - 1, s);
      var fwd, rev := View(fs.expandedRoots, 0, s, n / 2), View(fs.reverseRoots, 0, s, n / 2);
      assert fwd[k] == fs.expandedRoots[k * s] && rev[k] == fs.reverseRoots[k * s];
      ReverseEntry(fwd, rev, u, n, k, m);
    }
  }

  /** A canonical entry that inverts the k-th power of u is the k-th power of u^(n-1). */
  lemma {:induction false} ReverseEntry(fwd: seq<int>, rev: seq<int>, u: int, n: nat, k: nat, m: int)
    requires k < |fwd| && k < |rev| && PrimitiveRoot(u, n, m) && 0 <= rev[k] < m
    requires fwd[k] == Pow(u, k) % m && IsInverse(fwd[k], rev[k], m)
    ensures rev[k] == Pow(Pow(u, n - 1), k) % m
  {
    InversePowers(u, n, k, m);
    InverseUnique(fwd[k], rev[k], Pow(Pow(u, n - 1), k) % m, m);
  }

  /** fft_fr forward: the discrete Fourier transform at w^(maxWidth / n). */
  lemma {:induction false} ForwardIsDft(fs: Settings, w: int, xs: seq<int>, m: int)
    requires ValidSettings(fs, w, m) && ValidLength(|xs|, fs.maxWidth) && Canonical(xs, m)
    ensures Transform(fs, xs, false, m) == PowDft(xs, Pow(w, fs.maxWidth / |xs|), m)
  {
    var n := |xs|;
    StrideRoot(fs, w, n, m);
    ForwardTable(fs, w, n, m);
    ForwardTransform(fs, xs, m);
    FftIsPowDft(xs, View(fs.expandedRoots, 0, fs.maxWidth / n, n / 2), Pow(w, fs.maxWidth / n), m);
  }

  /** The forward direction of fft_fr reads the expanded table. */
  lemma {:induction false} ForwardTransform(fs: Settings, xs: seq<int>, m: int)
    requires m >= 1 && TablesCover(fs) && ValidLength(|xs|, fs.maxWidth)
    ensures |xs| / 2 == 0 || (|xs| / 2 - 1) * (fs.maxWidth / |xs|) < |fs.expandedRoots|
    ensures Transform(fs, xs, false, m) == Fft(xs, View(fs.expandedRoots, 0, fs.maxWidth / |xs|, |xs| / 2), m)
  {
    StrideBound(|xs|, fs.maxWidth);
  }

  /** fft_fr inverse: the transform at the inverse root, scaled by 1/n. */
  lemma {:induction false} InverseIsDft(fs: Settings, w: int, xs: seq<int>, m: int)
    requires ValidSettings(fs, w, m) && ValidLength(|xs|, fs.maxWidth) && Canonical(xs, m)
    ensures Transform(fs, xs, true, m) ==
      Scale(PowDft(xs, Pow(Pow(w, fs.maxWidth / |xs|), |xs| - 1), m), InvMod(|xs| % m, m), m)
  {
    InverseTransform(fs, xs, m);
    ReverseIsDft(fs, w, xs, m);
  }

  /** Over the reverse table, the fast transform is the DFT at the inverse root. */
  lemma {:induction false} ReverseIsDft(fs: Settings, w: int, xs: seq<int>, m: int)
    requires ValidSettings(fs, w, m) && ValidLength(|xs|, fs.maxWidth) && Canonical(xs, m)
    ensures |xs| / 2 == 0 || (|xs| / 2 - 1) * (fs.maxWidth / |xs|) < |fs.reverseRoots|
    ensures Fft(xs, View(fs.reverseRoots, 0, fs.maxWidth / |xs|, |xs| / 2), m) ==
      PowDft(xs, Pow(Pow(w, fs.maxWidth / |xs|), |xs| - 1), m)
  {
    var n := |xs|;
    StrideRoot(fs, w, n, m);
    ReverseTable(fs, w, n, m);
    InverseRootFft(xs, View(fs.reverseRoots, 0, fs.maxWidth / n, n / 2), Pow(w, fs.maxWidth / n), m);
  }

  /** Over the powers of the inverse u^(n-1) of a root u of order n, the fast transform is the DFT at u^(n-1). */
  lemma {:induction false} InverseRootFft(xs: seq<int>, ts: seq<int>, u: int, m: int)
    requires IsPowerOfTwo(|xs|) && |ts| == |xs| / 2 && Canonical(xs, m)
    requires PrimitiveRoot(u, |xs|, m) && PowersOf(ts, Pow(u, |xs| - 1), m)
    ensures Fft(xs, ts, m) == PowDft(xs, Pow(u, |xs| - 1), m)
  {
    InverseRootPrimitive(u, |xs|, m);
    FftIsPowDft(xs, ts, Pow(u, |xs| - 1), m);
  }

  /** The inverse direction of fft_fr reads the reverse table and scales by the inverse of n. */
  lemma {:induction false} InverseTransform(fs: Settings, xs: seq<int>, m: int)
    requires m >= 1 && TablesCover(fs) && ValidLength(|xs|, fs.maxWidth)
    ensures |xs| / 2 == 0 || (|xs| / 2 - 1) * (fs.maxWidth / |xs|) < |fs.reverseRoots|
    ensures Transform(fs, xs, true, m) ==
      Scale(Fft(xs, View(fs.reverseRoots, 0, fs.maxWidth / |xs|, |xs| / 2), m), InvMod(|xs| % m, m), m)
  {
    StrideBound(|xs|, fs.maxWidth);
  }

  /** The inverse of a power of two that fft_fr computes is one. */
  lemma {:induction false} LengthInverse(n: nat, m: int)
    requires OddModulus(m) && IsPowerOfTwo(n)
    ensures IsInverse(n % m, InvMod(n % m, m), m)
  {
    var y := InverseOfPowerOfTwo(n, m);
  }

  /** Multiplying n x by the inverse of n gives x back. */
  lemma {:induction false} CancelLength(x: int, n: nat, c: int, s: int, m: int)
    requires 0 <= x < m && s % m == (n * x) % m && IsInverse(n % m, c, m)
    ensures ((s % m) * c) % m == x
  {
    ReduceFirst(s, n * x, c, m);
    Reassociate(n, x, c);
    ModMulLeft(n, c, m);
    TimesUnit(x, n * c, m);
  }

  /** A factor can be replaced by a congruent one under the reduction. */
  lemma {:induction false} ReduceFirst(a: int, b: int, c: int, m: int)
    requires m >= 1 && a % m == b % m
    ensures ((a % m) * c) % m == (b * c) % m
  {
    ModMulLeft(b, c, m);
  }

  lemma {:induction false} Reassociate(n: int, y: int, c: int)
    ensures (n * y) * c == y * (n * c)
  {
  }

  /**
   * roundtrip: the inverse transform of the forward transform is the input.
   */
  lemma {:induction false} RoundTrip(fs: Settings, w: int, xs: seq<int>, m: int)
    requires ValidSettings(fs, w, m) && ValidLength(|xs|, fs.maxWidth) && Canonical(xs, m)
    ensures Transform(fs, Transform(fs, xs, false, m), true, m) == xs
  {
    var n := |xs|;
    StrideBound(n, fs.maxWidth);
    StrideRoot(fs, w, n, m);
    var u := Pow(w, fs.maxWidth / n);
    ForwardIsDft(fs, w, xs, m);
    InverseIsDft(fs, w, PowDft(xs, u, m), m);
    LengthInverse(n, m);
    ScaledRoundTrip(xs, u, InvMod(n % m, m), m);
  }

  /**
   * Transforming at u, then at u^(n-1) and scaling by the inverse of n gives
   * the input back.
   */
  lemma {:induction false} ScaledRoundTrip(xs: seq<int>, u: int, c: int, m: int)
    requires PrimitiveRoot(u, |xs|, m) && IsInverse(|xs| % m, c, m) && Canonical(xs, m)
    ensures Scale(PowDft(PowDft(xs, u, m), Pow(u, |xs| - 1), m), c, m) == xs
  {
    forall i | 0 <= i < |xs|
      ensures Scale(PowDft(PowDft(xs, u, m), Pow(u, |xs| - 1), m), c, m)[i] == xs[i]
    {
      ScaledRoundTripAt(xs, u, c, i, m);
    }
  }

  lemma {:induction false} ScaledRoundTripAt(xs: seq<int>, u: int, c: int, i: nat, m: int)
    requires PrimitiveRoot(u, |xs|, m) && IsInverse(|xs| % m, c, m) && Canonical(xs, m) && i < |xs|
    ensures (PowDft(PowDft(xs, u, m), Pow(u, |xs| - 1), m)[i] * c) % m == xs[i]
  {
    var n := |xs|;
    var s := Sum(n, PowTerms(PowDft(xs, u, m), Pow(u, n - 1), i));
    InverseDft(xs, u, Pow(u, n - 1), i, m);
    assert PowDft(PowDft(xs, u, m), Pow(u, n - 1), m)[i] == s % m;
    CancelLength(xs[i], n, c, s, m);
  }

  /** Scaling the inputs by c scales every output by c, modulo m. */
  lemma {:induction false} ScaleCommutes(ys: seq<int>, c: int, u: int, i: nat, m: int)
    requires m >= 1
    ensures Sum(|ys|, PowTerms(Scale(ys, c, m), u, i)) % m == (c * Sum(|ys|, PowTerms(ys, u, i))) % m
  {
    var n := |ys|;
    var f := PowTerms(ys, u, i);
    forall k: nat | k < n
      ensures PowTerms(Scale(ys, c, m), u, i)(k) % m == Times(c, f)(k) % m
    {
      var x, t := ys[k], Pow(u, i * k);
      ModUnique((x * c) % m, m, 0, (x * c) % m);
      MulCong((x * c) % m, x * c, t, t, m);
      assert (x * c) * t == c * (x * t);
    }
    SumCong(n, PowTerms(Scale(ys, c, m), u, i), Times(c, f), m);
    SumScale(n, c, f, Times(c, f));
  }

  /** Transforms at congruent roots agree term by term, modulo m. */
  lemma {:induction false} RootCong(ys: seq<int>, a: int, b: int, i: nat, m: int)
    requires m >= 1 && a % m == b % m
    ensures Sum(|ys|, PowTerms(ys, a, i)) % m == Sum(|ys|, PowTerms(ys, b, i)) % m
  {
    forall k: nat | k < |ys|
      ensures PowTerms(ys, a, i)(k) % m == PowTerms(ys, b, i)(k) % m
    {
      PowCong(a, b, i * k, m);
      MulCong(ys[k], ys[k], Pow(a, i * k), Pow(b, i * k), m);
    }
    SumCong(|ys|, PowTerms(ys, a, i), PowTerms(ys, b, i), m);
  }

  /** Transforms at congruent roots are equal. */
  lemma {:induction false} PowDftCong(xs: seq<int>, a: int, b: int, m: int)
    requires m >= 1 && a % m == b % m
    ensures PowDft(xs, a, m) == PowDft(xs, b, m)
  {
    forall i | 0 <= i < |xs|
      ensures PowDft(xs, a, m)[i] == PowDft(xs, b, m)[i]
    {
      RootCong(xs, a, b, i, m);
    }
  }

  /** (u^(n-1))^(n-1) = u: inverting the root twice gives it back. */
  lemma {:induction false} InverseOfInverseRoot(u: int, n: nat, m: int)
    requires PrimitiveRoot(u, n, m)
    ensures Pow(Pow(u, n - 1), n - 1) % m == u % m
  {
    PowMul(u, n - 1, n - 1);
    assert Pow(u, 1) == u * Pow(u, 0);
    if n == 1 {
      ModUnique(1, m, 0, 1);
    } else {
      assert (n - 1) * (n - 1) == n * (n - 2) + 1;
      UnityMultiple(u, n, n - 2, 1, m);
    }
  }

  /** The forward transform of the inverse transform is the input. */
  lemma {:induction false} RoundTripInverseFirst(fs: Settings, w: int, xs: seq<int>, m: int)
    requires ValidSettings(fs, w, m) && ValidLength(|xs|, fs.maxWidth) && Canonical(xs, m)
    ensures Transform(fs, Transform(fs, xs, true, m), false, m) == xs
  {
    var n := |xs|;
    StrideBound(n, fs.maxWidth);
    StrideRoot(fs, w, n, m);
    var u := Pow(w, fs.maxWidth / n);
    var v := Pow(u, n - 1);
    var c := InvMod(n % m, m);
    var zs := Transform(fs, xs, true, m);
    InverseIsDft(fs, w, xs, m);
    ForwardIsDft(fs, w, zs, m);
    InverseRootPrimitive(u, n, m);
    InverseOfInverseRoot(u, n, m);
    LengthInverse(n, m);
    forall i | 0 <= i < n
      ensures Transform(fs, zs, false, m)[i] == xs[i]
    {
      InverseFirstAt(xs, v, u, c, i, m);
    }
  }

  /**
   * Scaling the transform at v by the inverse of n and transforming at the
   * inverse root u gives input i back.
   */
  lemma {:induction false} InverseFirstAt(xs: seq<int>, v: int, u: int, c: int, i: nat, m: int)
    requires PrimitiveRoot(v, |xs|, m) && u % m == Pow(v, |xs| - 1) % m
    requires IsInverse(|xs| % m, c, m) && Canonical(xs, m) && i < |xs|
    ensures PowDft(Scale(PowDft(xs, v, m), c, m), u, m)[i] == xs[i]
  {
    var n := |xs|;
    var ys := PowDft(xs, v, m);
    var s1, s2 := Sum(n, PowTerms(ys, u, i)), Sum(n, PowTerms(ys, Pow(v, n - 1), i));
    ScaleCommutes(ys, c, u, i, m);
    RootCong(ys, u, Pow(v, n - 1), i, m);
    InverseDft(xs, v, Pow(v, n - 1), i, m);
    MulCong(c, c, s1, s2, m);
    assert c * s2 == s2 * c;
    ModMulLeft(s2, c, m);
    CancelLength(xs[i], n, c, s2, m);
  }

  /** For powers of two n <= k1 <= k2, k2 / n is (k2 / k1) (k1 / n). */
  lemma {:induction false} QuotientChain(n: nat, k1: nat, k2: nat)
    requires IsPowerOfTwo(n) && IsPowerOfTwo(k1) && IsPowerOfTwo(k2) && n <= k1 <= k2
    ensures k2 / n == (k2 / k1) * (k1 / n)
  {
    var a := PowerOfTwoDivides(k1, k2);
    var b := PowerOfTwoDivides(n, k1);
    assert k2 == a * (b * n);
    assert a * (b * n) == (a * b) * n;
    DivExact(k2, n, a * b);
  }

  /** The roots of order n two such settings objects read agree. */
  lemma {:induction false} CoarserRoot(w1: int, w2: int, k1: nat, k2: nat, n: nat, m: int)
    requires IsPowerOfTwo(n) && IsPowerOfTwo(k1) && IsPowerOfTwo(k2) && n <= k1 <= k2
    requires m >= 1 && w1 % m == Pow(w2, k2 / k1) % m
    ensures Pow(w1, k1 / n) % m == Pow(w2, k2 / n) % m
  {
    QuotientChain(n, k1, k2);
    PowCong(w1, Pow(w2, k2 / k1), k1 / n, m);
    PowMul(w2, k2 / k1, k1 / n);
  }

  /**
   * stride: two settings objects whose roots agree, the smaller one's root
   * being the corresponding power of the larger one's, give the same transform.
   */
  lemma {:induction false} StrideIndependence(fs1: Settings, w1: int, fs2: Settings, w2: int, xs: seq<int>, inverse: bool, m: int)
    requires ValidSettings(fs1, w1, m) && ValidSettings(fs2, w2, m) && Canonical(xs, m)
    requires ValidLength(|xs|, fs1.maxWidth) && fs1.maxWidth <= fs2.maxWidth
    requires w1 % m == Pow(w2, fs2.maxWidth / fs1.maxWidth) % m
    ensures ValidLength(|xs|, fs2.maxWidth)
    ensures Transform(fs1, xs, inverse, m) == Transform(fs2, xs, inverse, m)
  {
    var n := |xs|;
    StrideBound(n, fs1.maxWidth);
    StrideBound(n, fs2.maxWidth);
    CoarserRoot(w1, w2, fs1.maxWidth, fs2.maxWidth, n, m);
    if inverse {
      InverseIsDft(fs1, w1, xs, m);
      InverseIsDft(fs2, w2, xs, m);
      SameInverse(xs, Pow(w1, fs1.maxWidth / n), Pow(w2, fs2.maxWidth / n), InvMod(n % m, m), m);
    } else {
      ForwardIsDft(fs1, w1, xs, m);
      ForwardIsDft(fs2, w2, xs, m);
      PowDftCong(xs, Pow(w1, fs1.maxWidth / n), Pow(w2, fs2.maxWidth / n), m);
    }
  }

  /** Congruent roots give the same scaled inverse transform. */
  lemma {:induction false} SameInverse(xs: seq<int>, u1: int, u2: int, c: int, m: int)
    requires m >= 1 && |xs| >= 1 && u1 % m == u2 % m
    ensures Scale(PowDft(xs, Pow(u1, |xs| - 1), m), c, m) == Scale(PowDft(xs, Pow(u2, |xs| - 1), m), c, m)
  {
    PowCong(u1, u2, |xs| - 1, m);
    PowDftCong(xs, Pow(u1, |xs| - 1), Pow(u2, |xs| - 1), m);
  }

  /** A transform of length one returns its input, in either direction. */
  lemma {:induction false} TransformLengthOne(fs: Settings, x: int, inverse: bool, m: int)
    requires m >= 2 && 0 <= x < m && TablesCover(fs) && fs.maxWidth >= 1
    ensures Transform(fs, [x], inverse, m) == [x]
  {
    ModUnique(1, m, 0, 1);
    assert IsInverse(1, 1, m);
    var c := InvMod(1 % m, m);
    InverseUnique(1, c, 1, m);
    ModUnique(x, m, 0, x);
  }
}
