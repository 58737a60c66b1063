/*
 * The fast transform computes the discrete Fourier transform: for a root of
 * unity w of order n modulo m and twiddle factors ts[k] = w^k, Fft(xs, ts, m)
 * is the sequence of sums xs[0] + xs[1] w^i + ... + xs[n-1] w^(i (n-1)),
 * reduced modulo m, and so is the naive transform over the table of all n
 * powers of w.
 */
module FftProofs {
  import opened Field
  import opened Sums
  import opened Ntt
  import opened Roots

  /** j |-> xs[j] * w^(i j), the terms of output i of the transform at root w. */
  function PowTerms(xs: seq<int>, w: int, i: nat): nat -> int
  {
    (j: nat) => if j < |xs| then xs[j] * Pow(w, i * j) else 0
  }

  /** The discrete Fourier transform at the root w: output i is the sum of xs[j] w^(i j), modulo m. */
  function PowDft(xs: seq<int>, w: int, m: int): (r: seq<int>)
    requires m >= 1
    ensures |r| == |xs| && Canonical(r, m)
  {
    seq(|xs|, (i: int) requires 0 <= i < |xs| => Sum(|xs|, PowTerms(xs, w, i)) % m)
  }

  /** ts holds the first |ts| powers of w, reduced modulo m. */
  predicate PowersOf(ts: seq<int>, w: int, m: int)
  {
    m >= 1 && forall k :: 0 <= k < |ts| ==> ts[k] == Pow(w, k) % m
  }

  /** Term 2k of output i is term k of output i of the even inputs at w^2. */
  lemma {:induction false} EvenTerm(xs: seq<int>, w: int, i: nat, k: nat)
    requires k < |xs| / 2
    ensures EvenPart(PowTerms(xs, w, i))(k) == PowTerms(Evens(xs), w * w, i)(k)
  {
    assert i * (2 * k) == 2 * (i * k);
    PowSquare(w, i * k);
    assert Evens(xs)[k] == xs[2 * k];
  }

  /** Term 2k + 1 of output i is w^i times term k of output i of the odd inputs at w^2. */
  lemma {:induction false} OddTerm(xs: seq<int>, w: int, i: nat, k: nat)
    requires k < |xs| / 2
    ensures OddPart(PowTerms(xs, w, i))(k) == Pow(w, i) * PowTerms(Odds(xs), w * w, i)(k)
  {
    var x, a, b := xs[2 * k + 1], Pow(w, i), Pow(w * w, i * k);
    OddExponent(i, k);
    PowAdd(w, i, 2 * (i * k));
    PowSquare(w, i * k);
    assert OddPart(PowTerms(xs, w, i))(k) == x * (a * b);
    assert PowTerms(Odds(xs), w * w, i)(k) == x * b;
    assert x * (a * b) == a * (x * b);
  }

  lemma {:induction false} OddExponent(i: nat, k: nat)
    ensures i * (2 * k + 1) == i + 2 * (i * k)
  {
  }

  /** The even-indexed terms of output i are the terms of output i of the even inputs at w^2. */
  lemma {:induction false} EvenTerms(xs: seq<int>, w: int, i: nat)
    ensures Sum(|xs| / 2, EvenPart(PowTerms(xs, w, i))) == Sum(|xs| / 2, PowTerms(Evens(xs), w * w, i))
  {
    var f := PowTerms(xs, w, i);
    forall k: nat | k < |xs| / 2
      ensures EvenPart(f)(k) == PowTerms(Evens(xs), w * w, i)(k)
    {
      EvenTerm(xs, w, i, k);
    }
    SumExt(|xs| / 2, EvenPart(f), PowTerms(Evens(xs), w * w, i));
  }

  /** The odd-indexed terms of output i are w^i times the terms of output i of the odd inputs at w^2. */
  lemma {:induction false} OddTerms(xs: seq<int>, w: int, i: nat)
    ensures Sum(|xs| / 2, OddPart(PowTerms(xs, w, i))) == Pow(w, i) * Sum(|xs| / 2, PowTerms(Odds(xs), w * w, i))
  {
    var f := PowTerms(xs, w, i);
    forall k: nat | k < |xs| / 2
      ensures OddPart(f)(k) == Pow(w, i) * PowTerms(Odds(xs), w * w, i)(k)
    {
      OddTerm(xs, w, i, k);
    }
    SumScale(|xs| / 2, Pow(w, i), PowTerms(Odds(xs), w * w, i), OddPart(f));
  }

  /**
   * Splitting output i of a transform of length 2h by even and odd inputs:
   * the even half at w^2, plus w^i times the odd half at w^2.
   */
  lemma {:induction false} EvenOddSplit(xs: seq<int>, w: int, i: nat)
    requires |xs| % 2 == 0
    ensures Sum(|xs|, PowTerms(xs, w, i)) ==
      Sum(|xs| / 2, PowTerms(Evens(xs), w * w, i)) + Pow(w, i) * Sum(|xs| / 2, PowTerms(Odds(xs), w * w, i))
  {
    SumEvens(|xs| / 2, PowTerms(xs, w, i));
    EvenTerms(xs, w, i);
    OddTerms(xs, w, i);
  }

  /** Output h + i of a transform of length h at a root of order h is output i again. */
  lemma {:induction false} OutputPeriodic(ys: seq<int>, v: int, i: nat, m: int)
    requires m >= 2 && Pow(v, |ys|) % m == 1
    ensures Sum(|ys|, PowTerms(ys, v, |ys| + i)) % m == Sum(|ys|, PowTerms(ys, v, i)) % m
  {
    var h := |ys|;
    forall k: nat | k < h
      ensures PowTerms(ys, v, h + i)(k) % m == PowTerms(ys, v, i)(k) % m
    {
      assert (h + i) * k == h * k + i * k;
      UnityMultiple(v, h, k, i * k, m);
      MulCong(ys[k], ys[k], Pow(v, (h + i) * k), Pow(v, i * k), m);
    }
    SumCong(h, PowTerms(ys, v, h + i), PowTerms(ys, v, i), m);
  }

  /** The first-half butterfly output a + t b, computed with reductions on the way. */
  lemma {:induction false} CombinePlus(a: int, b: int, t: int, m: int)
    requires m >= 1
    ensures (a % m + ((b % m) * (t % m)) % m) % m == (a + t * b) % m
  {
    ModMul(b, t, m);
    ModAdd(a, b * t, m);
    assert b * t == t * b;
  }

  /** The second-half butterfly output a - t b, where t' = -t stands in for t. */
  lemma {:induction false} CombineMinus(a: int, a': int, b: int, b': int, t: int, t': int, m: int)
    requires m >= 1 && a % m == a' % m && b % m == b' % m && t' % m == ((m - 1) * t) % m
    ensures (a % m - ((b % m) * (t % m)) % m) % m == (a' + t' * b') % m
  {
    ModMul(b, t, m);
    ModSub(a, b * t, m);
    MulCong(t', (m - 1) * t, b', b, m);
    ProductOrder(m - 1, t, b);
    NegatedProduct(a, a', t' * b', (m - 1) * t * b, b * t, m);
  }

  /** (x t) b = x (b t) */
  lemma {:induction false} ProductOrder(x: int, t: int, b: int)
    ensures x * t * b == x * (b * t)
  {
  }

  /** Adding (m - 1) c is subtracting c, modulo m. */
  lemma {:induction false} NegatedProduct(a: int, a': int, x: int, y: int, c: int, m: int)
    requires m >= 1 && a % m == a' % m && x % m == y % m && y == (m - 1) * c
    ensures (a' + x) % m == (a - c) % m
  {
    ModAdd(a', x, m);
    ModAdd(a, y, m);
    assert a + y == (a - c) + c * m;
    ModMultiple(a - c, c, m);
  }

  /** Position i of one butterfly over the half-length transforms is output i of the whole. */
  lemma {:induction false} FftStep(xs: seq<int>, ts: seq<int>, w: int, i: nat, m: int)
    requires IsPowerOfTwo(|xs|) && |xs| >= 2 && |ts| == |xs| / 2
    requires PrimitiveRoot(w, |xs|, m) && PowersOf(ts, w, m) && i < |xs|
    ensures Butterfly(PowDft(Evens(xs), w * w, m), PowDft(Odds(xs), w * w, m), ts, m)[i] == PowDft(xs, w, m)[i]
  {
    EvenPowerOfTwo(|xs|);
    if i < |xs| / 2 {
      FftStepLow(xs, ts, w, i, m);
    } else {
      SquareIsPrimitive(w, |xs|, m);
      HalfTurn(w, |xs|, i - |xs| / 2, m);
      FftStepHigh(xs, ts, w, i, m);
    }
  }

  /** First half: output i is the even output i plus w^i times the odd output i. */
  lemma {:induction false} FftStepLow(xs: seq<int>, ts: seq<int>, w: int, i: nat, m: int)
    requires |xs| % 2 == 0 && |ts| == |xs| / 2 && PowersOf(ts, w, m) && i < |xs| / 2
    ensures Butterfly(PowDft(Evens(xs), w * w, m), PowDft(Odds(xs), w * w, m), ts, m)[i] == PowDft(xs, w, m)[i]
  {
    var h := |xs| / 2;
    var se, so := Sum(h, PowTerms(Evens(xs), w * w, i)), Sum(h, PowTerms(Odds(xs), w * w, i));
    EvenOddSplit(xs, w, i);
    assert PowDft(Evens(xs), w * w, m)[i] == se % m;
    assert PowDft(Odds(xs), w * w, m)[i] == so % m;
    assert ts[i] == Pow(w, i) % m;
    var e, o := PowDft(Evens(xs), w * w, m), PowDft(Odds(xs), w * w, m);
    ButterflyAt(e, o, ts, m, i);
    assert PowDft(xs, w, m)[i] == Sum(|xs|, PowTerms(xs, w, i)) % m;
    CombinePlus(se, so, Pow(w, i), m);
  }

  /**
   * Second half: output h + i' is the even output i' minus w^i' times the odd
   * output i', the half-length outputs repeating with period h.
   */
  lemma {:induction false} FftStepHigh(xs: seq<int>, ts: seq<int>, w: int, i: nat, m: int)
    requires |xs| == 2 * (|xs| / 2) && |ts| == |xs| / 2 && PowersOf(ts, w, m) && m >= 2
    requires |xs| / 2 <= i < |xs|
    requires Pow(w * w, |xs| / 2) % m == 1
    requires Pow(w, i) % m == ((m - 1) * Pow(w, i - |xs| / 2)) % m
    ensures Butterfly(PowDft(Evens(xs), w * w, m), PowDft(Odds(xs), w * w, m), ts, m)[i] == PowDft(xs, w, m)[i]
  {
    var h := |xs| / 2;
    var i' := i - h;
    HighSums(xs, w, i', m);
    var e, o := PowDft(Evens(xs), w * w, m), PowDft(Odds(xs), w * w, m);
    assert e[i'] == Sum(h, PowTerms(Evens(xs), w * w, i')) % m;
    assert o[i'] == Sum(h, PowTerms(Odds(xs), w * w, i')) % m;
    assert ts[i'] == Pow(w, i') % m;
    ButterflyAt(e, o, ts, m, i);
  }

  /** The sums behind the second half of the butterfly. */
  lemma {:induction false} HighSums(xs: seq<int>, w: int, i': nat, m: int)
    requires m >= 2 && |xs| == 2 * (|xs| / 2) && i' < |xs| / 2
    requires Pow(w * w, |xs| / 2) % m == 1
    requires Pow(w, |xs| / 2 + i') % m == ((m - 1) * Pow(w, i')) % m
    ensures (Sum(|xs| / 2, PowTerms(Evens(xs), w * w, i')) % m
             - ((Sum(|xs| / 2, PowTerms(Odds(xs), w * w, i')) % m) * (Pow(w, i') % m)) % m) % m
      == Sum(|xs|, PowTerms(xs, w, |xs| / 2 + i')) % m
  {
    var h := |xs| / 2;
    var i := h + i';
    EvenOddSplit(xs, w, i);
    OutputPeriodic(Evens(xs), w * w, i', m);
    OutputPeriodic(Odds(xs), w * w, i', m);
    CombineMinus(Sum(h, PowTerms(Evens(xs), w * w, i')), Sum(h, PowTerms(Evens(xs), w * w, i)),
                 Sum(h, PowTerms(Odds(xs), w * w, i')), Sum(h, PowTerms(Odds(xs), w * w, i)),
                 Pow(w, i'), Pow(w, i), m);
  }

  /** Every other twiddle factor of w is the twiddle factor of w^2. */
  lemma {:induction false} EvensOfPowers(ts: seq<int>, w: int, m: int)
    requires PowersOf(ts, w, m)
    ensures PowersOf(Evens(ts), w * w, m)
  {
    forall k | 0 <= k < |Evens(ts)|
      ensures Evens(ts)[k] == Pow(w * w, k) % m
    {
      PowSquare(w, k);
    }
  }

  /**
   * The fast transform computes the discrete Fourier transform: given the
   * twiddle factors ts[k] = w^k of a root w of order |xs| modulo m,
   * Fft(xs, ts, m) is output for output the sum of xs[j] w^(i j), modulo m.
   */
  lemma {:induction false} FftIsPowDft(xs: seq<int>, ts: seq<int>, w: int, m: int)
    requires IsPowerOfTwo(|xs|) && |ts| == |xs| / 2
    requires PrimitiveRoot(w, |xs|, m) && PowersOf(ts, w, m)
    requires Canonical(xs, m)
    ensures Fft(xs, ts, m) == PowDft(xs, w, m)
    decreases |xs|
  {
    if |xs| == 1 {
      assert Sum(1, PowTerms(xs, w, 0)) == xs[0] * Pow(w, 0);
      ModUnique(xs[0], m, 0, xs[0]);
    } else {
      EvenPowerOfTwo(|xs|);
      SquareIsPrimitive(w, |xs|, m);
      EvensOfPowers(ts, w, m);
      FftIsPowDft(Evens(xs), Evens(ts), w * w, m);
      FftIsPowDft(Odds(xs), Evens(ts), w * w, m);
      forall i | 0 <= i < |xs|
        ensures Fft(xs, ts, m)[i] == PowDft(xs, w, m)[i]
      {
        FftStep(xs, ts, w, i, m);
      }
    }
  }

  /** A product is congruent to the product of the reduced factor. */
  lemma {:induction false} TermCong(x: int, a: int, b: int, m: int)
    requires m >= 1 && a % m == b % m
    ensures (x * a) % m == (x * b) % m
  {
    MulCong(x, x, a, b, m);
  }

  /** Term j of output i of the naive transform is x_j w^(i j), modulo m. */
  lemma {:induction false} DftTerm(xs: seq<int>, ts: seq<int>, w: int, i: nat, j: nat, m: int)
    requires m >= 2 && |ts| == |xs| >= 1 && Pow(w, |xs|) % m == 1 && PowersOf(ts, w, m) && j < |xs|
    ensures DftTerms(xs, ts, i)(j) % m == PowTerms(xs, w, i)(j) % m
  {
    var e := i * j;
    var k := e % |xs|;
    assert DftTerms(xs, ts, i)(j) == xs[j] * ts[k];
    assert PowTerms(xs, w, i)(j) == xs[j] * Pow(w, e);
    PeriodicTerm(xs[j], ts[k], w, |xs|, e, m);
  }

  /** x times the table entry at e mod n is x w^e, modulo m, for a root w of order n. */
  lemma {:induction false} PeriodicTerm(x: int, t: int, w: int, n: nat, e: nat, m: int)
    requires n >= 1 && m >= 2 && Pow(w, n) % m == 1 && t == Pow(w, e % n) % m
    ensures (x * t) % m == (x * Pow(w, e)) % m
  {
    PowPeriodic(w, n, e, m);
    ModUnique(t, m, 0, t);
    TermCong(x, t, Pow(w, e), m);
  }

  /**
   * The naive transform over a table of the n powers of a root w of order n
   * is the discrete Fourier transform at w: the table lookup at (i j) mod n
   * reads w^(i j).
   */
  lemma {:induction false} DftIsPowDft(xs: seq<int>, ts: seq<int>, w: int, m: int)
    requires m >= 2 && |ts| == |xs| >= 1 && Pow(w, |xs|) % m == 1 && PowersOf(ts, w, m)
    ensures Dft(xs, ts, m) == PowDft(xs, w, m)
  {
    var n := |xs|;
    forall i | 0 <= i < n
      ensures Dft(xs, ts, m)[i] == PowDft(xs, w, m)[i]
    {
      forall j: nat | j < n
        ensures DftTerms(xs, ts, i)(j) % m == PowTerms(xs, w, i)(j) % m
      {
        DftTerm(xs, ts, w, i, j, m);
      }
      SumCong(n, DftTerms(xs, ts, i), PowTerms(xs, w, i), m);
    }
  }

  /** The first k elements of a view are the view of length k. */
  lemma {:induction false} ViewPrefix(s: seq<int>, stride: nat, n: nat, k: nat)
    requires k <= n && (n == 0 || (n - 1) * stride < |s|)
    ensures k == 0 || (k - 1) * stride < |s|
    ensures View(s, 0, stride, k) == View(s, 0, stride, n)[..k]
  {
    if k > 0 {
      MulLe(k - 1, n - 1, stride);
    }
  }

  /**
   * fft_fr_fast and fft_fr_slow agree: over the same canonical inputs and a
   * root table holding the n powers of a root of order n, the fast transform
   * and the naive one produce the same outputs.
   */
  lemma {:induction false} FastEqualsSlow(inp: seq<int>, stride: nat, roots: seq<int>, rootsStride: nat, n: nat, w: int, m: int)
    requires IsPowerOfTwo(n) && (n - 1) * stride < |inp| && (n - 1) * rootsStride < |roots|
    requires Canonical(inp, m)
    requires PrimitiveRoot(w, n, m) && PowersOf(View(roots, 0, rootsStride, n), w, m)
    ensures n / 2 == 0 || (n / 2 - 1) * rootsStride < |roots|
    ensures Fft(View(inp, 0, stride, n), View(roots, 0, rootsStride, n / 2), m) ==
      Dft(View(inp, 0, stride, n), View(roots, 0, rootsStride, n), m)
  {
    var xs := View(inp, 0, stride, n);
    var table := View(roots, 0, rootsStride, n);
    ViewPrefix(roots, rootsStride, n, n / 2);
    var ts := View(roots, 0, rootsStride, n / 2);
    PowersOfPrefix(table, w, n / 2, m);
    assert ts == table[..n / 2];
    CanonicalView(inp, stride, n, m);
    FftIsPowDft(xs, ts, w, m);
    DftIsPowDft(xs, table, w, m);
  }

  /** A prefix of a table of powers is a table of powers. */
  lemma {:induction false} PowersOfPrefix(ts: seq<int>, w: int, k: nat, m: int)
    requires PowersOf(ts, w, m) && k <= |ts|
    ensures PowersOf(ts[..k], w, m)
  {
  }

  /** A view of canonical residues holds canonical residues. */
  lemma {:induction false} CanonicalView(s: seq<int>, stride: nat, n: nat, m: int)
    requires Canonical(s, m) && (n == 0 || (n - 1) * stride < |s|)
    ensures Canonical(View(s, 0, stride, n), m)
  {
    var v := View(s, 0, stride, n);
    forall j | 0 <= j < n
      ensures 0 <= v[j] < m
    {
      assert v[j] == s[j * stride];
    }
  }
}
