# Radix-2 number-theoretic transform of c-kzg (src/fft_fr.c)

This project models the discrete Fourier transform over the scalar field of BLS12-381 that
`src/fft_fr.c` implements, and proves it correct. The transform is only defined for
power-of-two lengths. The file has three parts:

- `fft_fr_fast` is the recursive decimation-in-time butterfly. It transforms the even-indexed
  inputs into the first half of the output and the odd-indexed inputs into the second half,
  doubling both the input stride and the roots stride. It then combines the two halves in place.
- `fft_fr` is the entry point. It computes the roots stride `max_width / n` and rejects lengths
  that are too large or not a power of two. It runs the fast transform over either the expanded
  or the reverse root table, and in the inverse direction multiplies every output by `1/n`.
- `fft_fr_slow` is the quadratic reference transform that the tests compare against.

The specification functions and every lemma are stated for an arbitrary modulus `m`, and the
theorems about the transform hold for every odd `m`. The methods that model the C code work in
the field, at `m = P`. `TransformProofs.ModulusIsOdd` records that `P` is odd, so the theorems
apply to `fft_fr` itself. A sequence the theorems transform is required to be `Canonical`: its
entries are residues in `[0, m)`, as field elements are.

Modules:

- `Field`: field elements as integers in `[0, P)`, and the operations the transform calls.
  These are `fr_add`, `fr_sub`, `fr_mul`, `fr_inv` and `fr_from_uint64`. `fr_inv` is `InvMod`
  (extended Euclid) at `P`. The module also holds the congruence and power rules the proofs use.
- `Sums`: finite sums and the rules for rearranging them.
- `Ntt`: the three C functions as methods over an `array` (the caller's `out` buffer). Each
  takes an offset, and the inputs and roots are sequences read at an offset and a stride.
  `Fft`, `Dft` and `Transform` are the functions that specify them.
- `Roots`: roots of unity of power-of-two order, and the orthogonality of their powers.
- `FftProofs`: the fast transform and the naive one both compute the discrete Fourier
  transform `PowDft`. Hence they agree.
- `InverseProofs`: transforming at `w` and then at `w^(n-1)` multiplies every input by `n`.
- `TransformProofs`: the properties of `fft_fr` for a settings object built from a root `w` of
  order `max_width`. Forward is the DFT, inverse undoes forward in both orders, the result does
  not depend on the width of the settings, and length one is the identity.

## Model

| member | source | states |
|---|---|---|
| Ntt.FftFrFast | src/fft_fr.c:43-58 | Writes exactly `out[outOff .. outOff+n)`, which ends up holding `Fft` of the strided input view against the strided roots view. Every other slot of `out` is unchanged. Its requires are exactly the reads and writes of the recursion. |
| Ntt.CombineHalves | src/fft_fr.c:49-54 | With the even transform in the first half and the odd transform in the second, the loop leaves `E + O*root_i` in slot `i` and `E - O*root_i` in slot `i+half`. No slot outside the `2*half` window changes. |
| Ntt.FftFrSlow | src/fft_fr.c:124-137 | `out[i]` is the sum over `j < n` of `in[j*stride] * roots[((i*j) mod n) * roots_stride]`, reduced modulo P, for every `i < n`. Slots at or past `n` are unchanged. |
| Ntt.SlowOutput | src/fft_fr.c:128-135 | The inner loop of `fft_fr_slow`. Starting from `in[0]*roots[0]` and adding `in[j*stride] * roots[((i*j) mod n) * roots_stride]` for `j = 1 .. n-1` yields output `i` of the naive transform, reduced modulo P. |
| Ntt.FftFr | src/fft_fr.c:71-87 | Returns Ok exactly when `n` is a power of two no larger than `max_width`. On BadArgs nothing is written. On Ok, `out[..n]` is the forward transform over the expanded roots at stride `max_width/n`, or in the inverse direction the transform over the reverse roots times `Inv(n)`, and `out[n..]` is unchanged. |
| Ntt.SplitViews | src/fft_fr.c:45-48 | One level of recursion: the recursive calls' strided views (input stride doubled, offset by `stride` for the odd half, roots stride doubled) are the even and odd halves of the caller's view, and both stay inside its bounds. |
| Ntt.Pow2IsPowerOfTwo | src/fft_fr.c:74 | Every `2^k` passes the power-of-two check that `fft_fr` applies. |
| Ntt.PowerOfTwoLog | src/fft_fr.c:74 | Every length that passes the power-of-two check is `2^k` for some `k`. |
| Field.InvMod | src/fft_fr.c:78 | `fr_inv` is `InvMod` at `P`. The result is a residue in `[0, m)`, and whenever the argument has an inverse modulo `m`, the result is one. |
| Field.FromU64 | src/fft_fr.c:77 | `fr_from_uint64` maps every `n < P` to the field element `n`. |
| FftProofs.FftIsPowDft | src/fft_fr.c:43-58 | For a root `w` of order `n` and twiddle factors `ts[k] = w^k`, the butterfly recursion computes the DFT at `w`: output `i` is the sum of `xs[j] w^(ij)`, reduced modulo `m`. The inputs must be residues. |
| FftProofs.FftStep | src/fft_fr.c:49-54 | Combining the transforms at `w^2` of the even and odd inputs with `ts[k] = w^k` gives every output of the transform at `w`. The first half takes the sum and the second half the difference, because `w^(n/2) = -1`. |
| FftProofs.DftIsPowDft | src/fft_fr.c:124-137 | The naive transform over a table of the `n` powers of `w` is the DFT at `w`. The index `(i*j) mod n` picks the right power because `w^n = 1`. |
| FftProofs.FastEqualsSlow | src/fft_fr.c:150-156 | If the roots read at `roots_stride` are the powers of a root of order `n`, the fast and the slow transforms of the same strided input of residues are equal. |
| InverseProofs.InverseDft | src/fft_fr.c:75-81 | Transforming at `w` and then at `w^(n-1)` gives `n * xs[i]` modulo `m` at every position `i`. |
| Roots.Orthogonality | src/fft_fr.c:79-81 | For a root `w` of order `n` and `0 < d < n`, the sum of `w^(dk)` over `k < n` is 0 modulo `m`. |
| Roots.SquareIsPrimitive | src/fft_fr.c:47-48 | Squaring a root of order `n` gives a root of order `n/2`: the root the recursive calls use once the roots stride is doubled. |
| Roots.InverseOfPowerOfTwo | src/fft_fr.c:77-78 | Every power-of-two length has an inverse modulo every odd `m`, and so modulo P. Hence the `1/n` of the inverse direction exists. |
| TransformProofs.ForwardIsDft | src/fft_fr.c:84 | For a settings object built from a root `w` of order `max_width`, the forward transform of length `n` is the DFT at `w^(max_width/n)`. |
| TransformProofs.InverseIsDft | src/fft_fr.c:75-82 | The inverse transform is the DFT at `(w^(max_width/n))^(n-1)`, scaled by the inverse of `n` modulo `m`. |
| TransformProofs.RoundTrip | src/fft_fr.c:161-183 | The inverse transform of the forward transform returns the original input, for every valid length. |
| TransformProofs.RoundTripInverseFirst | src/fft_fr.c:75-85 | The forward transform of the inverse transform also returns the original input. |
| TransformProofs.StrideIndependence | src/fft_fr.c:209-229 | Two settings objects of widths `k1 <= k2` whose roots come from one chain (`w1 = w2^(k2/k1)`) give the same transform, in either direction, for every length both accept. |
| TransformProofs.TransformLengthOne | src/fft_fr.c:45-46 | A transform of length one returns its input, in both directions. |
| TransformProofs.InverseRootPrimitive | src/fft_fr.c:79 | `u^(n-1)`, the inverse of a root `u` of order `n`, is again a root of order `n`, so the reverse table read at stride `max_width / n` holds the powers of a root of order `n`. |
| TransformProofs.StrideRoot | src/fft_fr.c:72 | The stride `max_width / n` divides `max_width` exactly, and `w^(max_width/n)` is a root of order `n`: the entries `fft_fr` reads at that stride are the powers of a root of order `n`. |

## Left out

- Field elements are integers in `[0, P)`. The Montgomery form and the 4×64-bit limbs of `fr_t` are not modelled; `fr_add`, `fr_sub`, `fr_mul` and `fr_inv` are arithmetic modulo P.
- Field.InvMod: promises an inverse only for arguments that have one. The primality of P is not proved, so "every non-zero element is invertible" is not stated. The lengths that `fft_fr` inverts are powers of two, and these are shown to be invertible.
- The settings constructor and destructor (`new_fft_settings`, `free_fft_settings`) are not part of this model. What the transform needs from them is the precondition `ValidSettings`. It says that the expanded table holds the powers of a root of order `max_width` and that each reverse entry is the inverse of the expanded entry at the same index.
- `is_power_of_two` lives in a header that is not part of this model. `IsPowerOfTwo` stands for it, and `Pow2IsPowerOfTwo` and `PowerOfTwoLog` relate it to `2^k`.
- `n == 0`: line 72 divides by `n` before either check, so the source divides by zero. The model's `FftFr` returns BadArgs for 0 instead.
- Ntt.FftFrFast: the documented read bound `in[0 .. n*stride)` is replaced by the exact one, `inOff + (n-1)*stride < |in|`. The documented bound does not hold for the second recursive call (`in + stride`), while the exact one does. The roots bound is likewise the exact `(n/2-1)*roots_stride`.
- `const` inputs: `in` and `roots` are Dafny sequences, so they cannot change. Aliasing between `out` and `in` is not modelled; the tests never alias them.
- uint64 arithmetic: strides, indices and lengths are unbounded naturals. A wrap-around of `stride * 2` or `i * roots_stride` is not modelled.
- The known-answer test `inverse_fft` (lines 94-110 and 185-207) needs the concrete root of unity and the limb encoding, which are outside this model.
- The test program (acutest, `TEST_LIST`) is not modelled. The properties its tests check are lemmas: `FastEqualsSlow`, `RoundTrip` and `StrideIndependence`.
