/*
 * The radix-2 number-theoretic transform of src/fft_fr.c: the recursive
 * decimation-in-time butterfly (fft_fr_fast), the public entry point with its
 * argument checks and inverse scaling (fft_fr), and the naive quadratic
 * transform the tests compare against (fft_fr_slow).
 *
 * A C array read from an offset with a stride is modelled as a sequence with an offset and a
 * stride; the caller's output buffer is an array with an offset.
 */
module Ntt {
  import opened Field
  import opened Sums

  /** The return codes fft_fr produces: C_KZG_OK and C_KZG_BADARGS. */
  datatype Ret = Ok | BadArgs

  /**
   * The parts of an FFTSettings that the transform reads: the largest
   * supported width and the two tables of roots of unity.
   */
  datatype Settings = Settings(maxWidth: nat, expandedRoots: seq<Fr>, reverseRoots: seq<Fr>)

  /** n is 1, 2, 4, 8, ... */
  predicate IsPowerOfTwo(n: nat)
    decreases n
  {
    if n <= 1 then n == 1 else n % 2 == 0 && IsPowerOfTwo(n / 2)
  }

  /** 2^k */
  function Pow2(k: nat): nat
  {
    if k == 0 then 1 else 2 * Pow2(k - 1)
  }

  /** Every 2^k passes the power-of-two test. */
  lemma {:induction false} Pow2IsPowerOfTwo(k: nat)
    ensures IsPowerOfTwo(Pow2(k))
  {
    if k > 0 {
      Pow2IsPowerOfTwo(k - 1);
      assert Pow2(k) / 2 == Pow2(k - 1);
    }
  }

  /** Every number that passes the power-of-two test is 2^k for some k. */
  lemma {:induction false} PowerOfTwoLog(n: nat) returns (k: nat)
    requires IsPowerOfTwo(n)
    ensures n == Pow2(k)
    decreases n
  {
    if n == 1 {
      k := 0;
    } else {
      var k' := PowerOfTwoLog(n / 2);
      k := k' + 1;
    }
  }

  /** The lengths fft_fr accepts for a settings object of width maxWidth. */
  predicate ValidLength(n: nat, maxWidth: nat)
  {
    n <= maxWidth && IsPowerOfTwo(n)
  }

  /** Both root tables hold at least maxWidth entries, as the settings constructor provides. */
  predicate TablesCover(fs: Settings)
  {
    |fs.expandedRoots| >= fs.maxWidth && |fs.reverseRoots| >= fs.maxWidth
  }

  /** Every element of xs is a canonical residue modulo m, as every fr_t is modulo P. */
  predicate Canonical(xs: seq<int>, m: int)
  {
    forall j :: 0 <= j < |xs| ==> 0 <= xs[j] < m
  }

  /** The n elements s[off], s[off + stride], ..., s[off + (n-1) * stride]. */
  function View(s: seq<int>, off: nat, stride: nat, n: nat): (v: seq<int>)
    requires n == 0 || off + (n - 1) * stride < |s|
    ensures |v| == n
    ensures forall j :: 0 <= j < n ==> v[j] == s[off + j * stride]
  {
    seq(n, (j: int) requires 0 <= j < n => MulLe(j, n - 1, stride); s[off + j * stride])
  }

  /** The elements at even positions. */
  function Evens(s: seq<int>): (r: seq<int>)
    ensures |r| == |s| / 2
    ensures forall k :: 0 <= k < |r| ==> r[k] == s[2 * k]
  {
    seq(|s| / 2, (k: int) requires 0 <= k < |s| / 2 => s[2 * k])
  }

  /** The elements at odd positions. */
  function Odds(s: seq<int>): (r: seq<int>)
    ensures |r| == |s| / 2
    ensures forall k :: 0 <= k < |r| ==> r[k] == s[2 * k + 1]
  {
    seq(|s| / 2, (k: int) requires 0 <= k < |s| / 2 => s[2 * k + 1])
  }

  /**
   * The combine step of the butterfly modulo m: with t = o[i] * ts[i] mod m,
   * slot i receives e[i] + t and slot i + half receives e[i] - t, both reduced.
   * At m = P these are fr_mul, fr_add and fr_sub.
   */
  function Butterfly(e: seq<int>, o: seq<int>, ts: seq<int>, m: int): (r: seq<int>)
    requires m >= 1 && |e| == |o| <= |ts|
    ensures |r| == 2 * |e|
  {
    var half := |e|;
    seq(2 * half, (i: int) requires 0 <= i < 2 * half =>
      if i < half then (e[i] + (o[i] * ts[i]) % m) % m
      else (e[i - half] - (o[i - half] * ts[i - half]) % m) % m)
  }

  /** Position i of a butterfly: the sum for the first half, the difference for the second. */
  lemma {:induction false} ButterflyAt(e: seq<int>, o: seq<int>, ts: seq<int>, m: int, i: nat)
    requires m >= 1 && |e| == |o| <= |ts| && i < 2 * |e|
    ensures i < |e| ==> Butterfly(e, o, ts, m)[i] == (e[i] + (o[i] * ts[i]) % m) % m
    ensures i >= |e| ==> Butterfly(e, o, ts, m)[i] == (e[i - |e|] - (o[i - |e|] * ts[i - |e|]) % m) % m
  {
  }

  /**
   * What fft_fr_fast computes for the inputs xs against the twiddle factors ts
   * (ts[i] is the root the top-level combine step multiplies by at position i):
   * transform the even and the odd inputs against every other twiddle factor,
   * then combine.
   */
  function Fft(xs: seq<int>, ts: seq<int>, m: int): (r: seq<int>)
    requires m >= 1 && IsPowerOfTwo(|xs|) && |ts| == |xs| / 2
    ensures |r| == |xs|
    decreases |xs|
  {
    if |xs| == 1 then xs
    else Butterfly(Fft(Evens(xs), Evens(ts), m), Fft(Odds(xs), Evens(ts), m), ts, m)
  }

  /** j |-> xs[j] * ts[(i * j) mod n], the terms of output i of the naive transform. */
  function DftTerms(xs: seq<int>, ts: seq<int>, i: nat): nat -> int
  {
    (j: nat) => if j < |xs| && (i * j) % |xs| < |ts| then xs[j] * ts[(i * j) % |xs|] else 0
  }

  /**
   * The naive transform against a table of n roots: output i is the sum
   * over j of xs[j] * ts[(i * j) mod n], reduced modulo m.
   */
  function Dft(xs: seq<int>, ts: seq<int>, m: int): (r: seq<int>)
    requires m >= 1
    ensures |r| == |xs|
  {
    seq(|xs|, (i: int) requires 0 <= i < |xs| => Sum(|xs|, DftTerms(xs, ts, i)) % m)
  }

  /** Every element multiplied by c modulo m. */
  function Scale(xs: seq<int>, c: int, m: int): (r: seq<int>)
    requires m >= 1
    ensures |r| == |xs| && Canonical(r, m)
  {
    seq(|xs|, (i: int) requires 0 <= i < |xs| => (xs[i] * c) % m)
  }

  /** The stride fft_fr uses keeps every read of a root table below maxWidth. */
  lemma {:induction false} StrideBound(n: nat, maxWidth: nat)
    requires 1 <= n <= maxWidth
    ensures maxWidth / n >= 1 && (maxWidth / n) * n <= maxWidth
    ensures n / 2 == 0 || (n / 2 - 1) * (maxWidth / n) < maxWidth
  {
    var s, r := maxWidth / n, maxWidth % n;
    assert maxWidth == s * n + r && 0 <= r < n;
    QuotientPositive(n, maxWidth, s, r);
    if n / 2 > 0 {
      LastRootBelow(n, maxWidth, s);
    }
  }

  /** A quotient of m >= n by n is positive. */
  lemma {:induction false} QuotientPositive(n: nat, m: nat, s: int, r: int)
    requires 1 <= n <= m && m == s * n + r && 0 <= r < n
    ensures s >= 1 && s * n <= m
  {
    if s <= 0 {
      MulNonPositive(s, n);
    }
  }

  lemma {:induction false} MulNonPositive(s: int, n: nat)
    requires s <= 0
    ensures s * n <= 0
  {
  }

  /** With s n <= m, the last root index (n/2 - 1) s stays below m. */
  lemma {:induction false} LastRootBelow(n: nat, m: nat, s: nat)
    requires n >= 2 && s >= 1 && s * n <= m
    ensures (n / 2 - 1) * s < m
  {
    MulLe(n / 2 - 1, n - 1, s);
    assert (n - 1) * s + s == n * s;
  }

  /**
   * What fft_fr leaves in out[0..n) on success, computed modulo m: the fast
   * transform over the expanded roots, or over the reverse roots scaled by the
   * inverse of n, with the root table read at stride maxWidth / n.
   * fft_fr computes it at m = P.
   */
  function Transform(fs: Settings, xs: seq<int>, inverse: bool, m: int): (r: seq<int>)
    requires m >= 1 && TablesCover(fs) && ValidLength(|xs|, fs.maxWidth)
    ensures |r| == |xs|
  {
    var n := |xs|;
    var stride := fs.maxWidth / n;
    StrideBound(n, fs.maxWidth);
    if inverse then Scale(Fft(xs, View(fs.reverseRoots, 0, stride, n / 2), m), InvMod(n % m, m), m)
    else Fft(xs, View(fs.expandedRoots, 0, stride, n / 2), m)
  }

  /**
   * fft_fr_fast: transform the n inputs in[inOff + j * stride] into
   * out[outOff .. outOff + n), using the roots roots[i * rootsStride].
   * The requires clauses are exactly its read and write footprints.
   */
  method FftFrFast(out: array<Fr>, outOff: nat, inp: seq<Fr>, inOff: nat, stride: nat,
                   roots: seq<Fr>, rootsStride: nat, n: nat)
    requires IsPowerOfTwo(n)
    requires outOff + n <= out.Length
    requires inOff + (n - 1) * stride < |inp|
    requires n / 2 == 0 || (n / 2 - 1) * rootsStride < |roots|
    modifies out
    ensures forall j :: outOff <= j < outOff + n ==>
      out[j] == Fft(View(inp, inOff, stride, n), View(roots, 0, rootsStride, n / 2), P)[j - outOff]
    ensures forall j :: 0 <= j < out.Length && !(outOff <= j < outOff + n) ==> out[j] == old(out[j])
    decreases n
  {
    var half := n / 2;
    if half > 0 {
      HalfBounds(n, inOff, stride, |inp|, rootsStride, |roots|);
      ghost var e := Fft(View(inp, inOff, stride * 2, half), View(roots, 0, rootsStride * 2, half / 2), P);
      ghost var o := Fft(View(inp, inOff + stride, stride * 2, half), View(roots, 0, rootsStride * 2, half / 2), P);
      FftFrFast(out, outOff, inp, inOff, stride * 2, roots, rootsStride * 2, half);
      FftFrFast(out, outOff + half, inp, inOff + stride, stride * 2, roots, rootsStride * 2, half);
      assert forall j :: outOff <= j < outOff + half ==> out[j] == e[j - outOff];
      assert forall j :: outOff + half <= j < outOff + 2 * half ==> out[j] == o[j - outOff - half];
      CombineHalves(out, outOff, half, roots, rootsStride, e, o);
      SplitViews(inp, inOff, stride, n, roots, rootsStride, P);
    } else {
      SingleView(inp, inOff, stride, roots, rootsStride, P);
      out[outOff] := inp[inOff];
    }
  }

  /**
   * The combine loop of fft_fr_fast: with the two half-size transforms in
   * out[outOff .. outOff + half) and out[outOff + half .. outOff + 2 * half),
   * apply the butterfly in place, position by position.
   */
  method CombineHalves(out: array<Fr>, outOff: nat, half: nat, roots: seq<Fr>, rootsStride: nat,
                       ghost e: seq<int>, ghost o: seq<int>)
    requires 1 <= half && outOff + 2 * half <= out.Length
    requires (half - 1) * rootsStride < |roots|
    requires |e| == half && |o| == half
    requires forall j :: outOff <= j < outOff + half ==> out[j] == e[j - outOff]
    requires forall j :: outOff + half <= j < outOff + 2 * half ==> out[j] == o[j - outOff - half]
    modifies out
    ensures forall j :: outOff <= j < outOff + 2 * half ==>
      out[j] == Butterfly(e, o, View(roots, 0, rootsStride, half), P)[j - outOff]
    ensures forall j :: 0 <= j < out.Length && !(outOff <= j < outOff + 2 * half) ==> out[j] == old(out[j])
  {
    ghost var ts := View(roots, 0, rootsStride, half);
    ghost var b := Butterfly(e, o, ts, P);
    var i := 0;
    while i < half
      invariant 0 <= i <= half
      invariant forall j :: outOff <= j < outOff + i ==> out[j] == b[j - outOff]
      invariant forall j :: outOff + half <= j < outOff + half + i ==> out[j] == b[j - outOff]
      invariant forall j :: outOff + i <= j < outOff + half ==> out[j] == e[j - outOff]
      invariant forall j :: outOff + half + i <= j < outOff + 2 * half ==> out[j] == o[j - outOff - half]
      invariant forall j :: 0 <= j < out.Length && !(outOff <= j < outOff + 2 * half) ==> out[j] == old(out[j])
    {
      MulLe(i, half - 1, rootsStride);
      var yTimesRoot := Mul(out[outOff + i + half], roots[i * rootsStride]);
      out[outOff + i + half] := Sub(out[outOff + i], yTimesRoot);
      out[outOff + i] := Add(out[outOff + i], yTimesRoot);
      i := i + 1;
    }
  }

  /** The transform of a single element is that element. */
  lemma {:induction false} SingleView(inp: seq<int>, inOff: nat, stride: nat, roots: seq<int>, rootsStride: nat, m: int)
    requires m >= 1 && inOff < |inp|
    ensures Fft(View(inp, inOff, stride, 1), View(roots, 0, rootsStride, 0), m) == [inp[inOff]]
  {
    assert View(inp, inOff, stride, 1) == [inp[inOff]];
  }

  /**
   * One level of the recursion on strided views: the transform of a view is
   * the butterfly of the transforms of its two interleaved halves.
   */
  lemma {:induction false} SplitViews(inp: seq<int>, inOff: nat, stride: nat, n: nat, roots: seq<int>, rootsStride: nat, m: int)
    requires m >= 1 && IsPowerOfTwo(n) && n >= 2
    requires inOff + (n - 1) * stride < |inp|
    requires (n / 2 - 1) * rootsStride < |roots|
    ensures IsPowerOfTwo(n / 2)
    ensures inOff + (n / 2 - 1) * (stride * 2) < |inp|
    ensures inOff + stride + (n / 2 - 1) * (stride * 2) < |inp|
    ensures n / 2 / 2 == 0 || (n / 2 / 2 - 1) * (rootsStride * 2) < |roots|
    ensures Fft(View(inp, inOff, stride, n), View(roots, 0, rootsStride, n / 2), m) ==
      Butterfly(Fft(View(inp, inOff, stride * 2, n / 2), View(roots, 0, rootsStride * 2, n / 2 / 2), m),
                Fft(View(inp, inOff + stride, stride * 2, n / 2), View(roots, 0, rootsStride * 2, n / 2 / 2), m),
                View(roots, 0, rootsStride, n / 2), m)
  {
    HalfBounds(n, inOff, stride, |inp|, rootsStride, |roots|);
    ViewEvens(inp, inOff, stride, n);
    ViewOdds(inp, inOff, stride, n);
    ViewEvens(roots, 0, rootsStride, n / 2);
  }

  /** The reads of both recursive calls stay inside the reads of the caller. */
  lemma {:induction false} HalfBounds(n: nat, inOff: nat, stride: nat, inLen: nat, rootsStride: nat, rootsLen: nat)
    requires IsPowerOfTwo(n) && n >= 2
    requires inOff + (n - 1) * stride < inLen
    requires (n / 2 - 1) * rootsStride < rootsLen
    ensures IsPowerOfTwo(n / 2) && n == n / 2 + n / 2
    ensures inOff + (n / 2 - 1) * (stride * 2) < inLen
    ensures inOff + stride + (n / 2 - 1) * (stride * 2) < inLen
    ensures n / 2 / 2 == 0 || (n / 2 / 2 - 1) * (rootsStride * 2) < rootsLen
  {
    var half := n / 2;
    assert n == 2 * half;
    assert (half - 1) * (stride * 2) + stride == (n - 1) * stride;
    if n / 2 / 2 > 0 {
      assert half == 2 * (n / 2 / 2);
      assert (n / 2 / 2 - 1) * (rootsStride * 2) + rootsStride == (half - 1) * rootsStride;
    }
  }

  /** Doubling the stride of a view selects its even elements. */
  lemma {:induction false} ViewEvens(s: seq<int>, off: nat, stride: nat, len: nat)
    requires len == 0 || off + (len - 1) * stride < |s|
    ensures len / 2 == 0 || off + (len / 2 - 1) * (stride * 2) < |s|
    ensures View(s, off, stride * 2, len / 2) == Evens(View(s, off, stride, len))
  {
    if len / 2 > 0 {
      assert (len / 2 - 1) * (stride * 2) + 2 * stride == (2 * (len / 2)) * stride;
      MulLe(2 * (len / 2), len, stride);
    }
    forall k | 0 <= k < len / 2
      ensures off + k * (stride * 2) == off + (2 * k) * stride
    {
    }
  }

  /** Starting one stride later at double the stride selects the odd elements. */
  lemma {:induction false} ViewOdds(s: seq<int>, off: nat, stride: nat, len: nat)
    requires len >= 2 && off + (len - 1) * stride < |s|
    ensures off + stride + (len / 2 - 1) * (stride * 2) < |s|
    ensures View(s, off + stride, stride * 2, len / 2) == Odds(View(s, off, stride, len))
  {
    assert (len / 2 - 1) * (stride * 2) + stride + stride == (2 * (len / 2)) * stride;
    MulLe(2 * (len / 2), len, stride);
    forall k | 0 <= k < len / 2
      ensures off + stride + k * (stride * 2) == off + (2 * k + 1) * stride
    {
    }
  }

  /**
   * fft_fr_slow: for every i < n, out[i] accumulates
   * in[j * stride] * roots[((i * j) mod n) * rootsStride] over j < n.
   */
  method FftFrSlow(out: array<Fr>, inp: seq<Fr>, stride: nat, roots: seq<Fr>, rootsStride: nat, n: nat)
    requires n <= out.Length
    requires n == 0 || ((n - 1) * stride < |inp| && (n - 1) * rootsStride < |roots|)
    modifies out
    ensures forall k :: 0 <= k < n ==> out[k] == Dft(View(inp, 0, stride, n), View(roots, 0, rootsStride, n), P)[k]
    ensures forall k :: n <= k < out.Length ==> out[k] == old(out[k])
  {
    var i := 0;
    while i < n
      invariant 0 <= i <= n
      invariant forall k :: 0 <= k < i ==> out[k] == Dft(View(inp, 0, stride, n), View(roots, 0, rootsStride, n), P)[k]
      invariant forall k :: n <= k < out.Length ==> out[k] == old(out[k])
    {
      out[i] := SlowOutput(inp, stride, roots, rootsStride, n, i);
      i := i + 1;
    }
  }

  /** The inner loop of fft_fr_slow: output i of the naive transform. */
  method SlowOutput(inp: seq<Fr>, stride: nat, roots: seq<Fr>, rootsStride: nat, n: nat, i: nat) returns (last: Fr)
    requires i < n && (n - 1) * stride < |inp| && (n - 1) * rootsStride < |roots|
    ensures last == Dft(View(inp, 0, stride, n), View(roots, 0, rootsStride, n), P)[i]
  {
    ghost var xs := View(inp, 0, stride, n);
    ghost var ts := View(roots, 0, rootsStride, n);
    SlowTerm(inp, stride, roots, rootsStride, n, i, 0);
    last := Mul(inp[0], roots[0]);
    SlowStep(xs, ts, i, 0, 0, inp[0], roots[0], P);
    var j := 1;
    while j < n
      invariant 1 <= j <= n
      invariant last == Sum(j, DftTerms(xs, ts, i)) % P
    {
      SlowTerm(inp, stride, roots, rootsStride, n, i, j);
      var jv := inp[j * stride];
      var r := roots[((i * j) % n) * rootsStride];
      var v := Mul(jv, r);
      SlowStep(xs, ts, i, j, last, jv, r, P);
      last := Add(last, v);
      j := j + 1;
    }
  }

  /** The element and the root fft_fr_slow reads for term j of output i are the ones the naive sum multiplies. */
  lemma {:induction false} SlowTerm(inp: seq<int>, stride: nat, roots: seq<int>, rootsStride: nat, n: nat, i: nat, j: nat)
    requires j < n
    requires (n - 1) * stride < |inp| && (n - 1) * rootsStride < |roots|
    ensures j * stride < |inp| && ((i * j) % n) * rootsStride < |roots|
    ensures j == 0 ==> j * stride == 0 && ((i * j) % n) * rootsStride == 0
    ensures DftTerms(View(inp, 0, stride, n), View(roots, 0, rootsStride, n), i)(j) ==
      inp[j * stride] * roots[((i * j) % n) * rootsStride]
  {
    var k := (i * j) % n;
    if j == 0 {
      FirstTermIndex(i, n);
    }
    SlowTermAt(inp, stride, roots, rootsStride, n, i, j, k);
  }

  /** Term 0 of every output reads the root at index 0. */
  lemma {:induction false} FirstTermIndex(i: nat, n: nat)
    requires n >= 1
    ensures (i * 0) % n == 0
  {
    assert i * 0 == 0;
  }

  /** Term j of output i, with k == (i * j) mod n named. */
  lemma {:induction false} SlowTermAt(inp: seq<int>, stride: nat, roots: seq<int>, rootsStride: nat, n: nat, i: nat, j: nat, k: nat)
    requires j < n && k < n && k == (i * j) % n
    requires (n - 1) * stride < |inp| && (n - 1) * rootsStride < |roots|
    ensures j * stride < |inp| && k * rootsStride < |roots|
    ensures DftTerms(View(inp, 0, stride, n), View(roots, 0, rootsStride, n), i)(j) ==
      inp[j * stride] * roots[k * rootsStride]
  {
    MulLe(j, n - 1, stride);
    MulLe(k, n - 1, rootsStride);
    var xs, ts := View(inp, 0, stride, n), View(roots, 0, rootsStride, n);
    DftTermAt(xs, ts, i, j, k);
    assert xs[j] == inp[j * stride];
    assert ts[k] == roots[k * rootsStride];
  }

  /** Term j of output i of the naive transform, with k == (i * j) mod n named. */
  lemma {:induction false} DftTermAt(xs: seq<int>, ts: seq<int>, i: nat, j: nat, k: nat)
    requires j < |xs| && k < |ts| && k == (i * j) % |xs|
    ensures DftTerms(xs, ts, i)(j) == xs[j] * ts[k]
  {
  }

  /** Adding term j to the running total of output i. */
  lemma {:induction false} SlowStep(xs: seq<int>, ts: seq<int>, i: nat, j: nat, last: int, jv: int, r: int, m: int)
    requires m >= 1 && last == Sum(j, DftTerms(xs, ts, i)) % m
    requires DftTerms(xs, ts, i)(j) == jv * r
    ensures (last + (jv * r) % m) % m == Sum(j + 1, DftTerms(xs, ts, i)) % m
  {
    ModAdd(Sum(j, DftTerms(xs, ts, i)), jv * r, m);
  }

  /**
   * fft_fr: check the length, run the fast transform over the table the
   * direction selects at stride maxWidth / n, and scale by 1/n when inverting.
   */
  method FftFr(out: array<Fr>, inp: seq<Fr>, inverse: bool, n: nat, fs: Settings) returns (ret: Ret)
    requires n <= |inp| && n <= out.Length
    requires TablesCover(fs)
    modifies out
    ensures ret == Ok <==> ValidLength(n, fs.maxWidth)
    ensures ret == BadArgs ==> out[..] == old(out[..])
    ensures ret == Ok ==> out[..n] == Transform(fs, inp[..n], inverse, P) && out[n..] == old(out[n..])
  {
    if n == 0 {
      return BadArgs;
    }
    var stride := fs.maxWidth / n;
    if n > fs.maxWidth {
      return BadArgs;
    }
    if !IsPowerOfTwo(n) {
      return BadArgs;
    }
    StrideBound(n, fs.maxWidth);
    ghost var xs := inp[..n];
    assert View(inp, 0, 1, n) == xs;
    if inverse {
      var invLen := FromU64(n);
      invLen := Inv(invLen);
      FftFrFast(out, 0, inp, 0, 1, fs.reverseRoots, stride, n);
      ghost var y := out[..n];
      var i := 0;
      while i < n
        invariant 0 <= i <= n
        invariant forall k :: 0 <= k < i ==> out[k] == Mul(y[k], invLen)
        invariant forall k :: i <= k < n ==> out[k] == y[k]
        invariant out[n..] == old(out[n..])
      {
        out[i] := Mul(out[i], invLen);
        i := i + 1;
      }
      assert out[..n] == Scale(y, invLen, P);
    } else {
      FftFrFast(out, 0, inp, 0, 1, fs.expandedRoots, stride, n);
    }
    return Ok;
  }
}
