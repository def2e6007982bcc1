# Signal processing core in Dafny

A model of the core of a small Rust library for discrete-time signals in
linear time-invariant system theory:

- `signal.dfy` (module `Signal`, from `src/signal.rs`): the `AperiodicSignal`
  value with its construction, its length, and its reads at unsigned (`usize`)
  and signed 32-bit (`i32`) indices. Both reads are zero-padded outside the
  stored samples. The module also holds the sample-wise `+` (method `Add`) and
  the direct discrete convolution `fold` (method `Fold`, nested loops with an
  accumulator).
- `decomposition.dfy` (module `Decomposition`, from `src/lib.rs`): the
  impulse, step and even/odd decompositions. Each is a method that fills fresh
  sample vectors in loops, as the Rust code does.

Every method is proved against a declarative definition of its result:
`Plus`, `Convolution` (built from the sum `ConvSum`), `Impulses`, `Steps` and
`EvenOdd`. The lemmas then state what the library promises about those
definitions: zero-padding, length, the identity, delay and scaling kernels,
reconstruction by summing components, and even/odd symmetry. The test vectors
of both source files are stated as lemmas.

Modelling choices:

- Samples are exact `int`s. The trait is written for `f64`, but `lib.rs` builds
  integer vectors (`vec![0; n]`, integer literals) and every test uses small
  integers.
- The signed index type is the subset type `I32`. The cast `len() as i32` is
  written out as a 32-bit wrap-around (`AsI32`). `AtI32` therefore never reads
  outside the stored samples, and it equals the zero-padded read whenever the
  length fits in an `i32`.
- Rust's integer `/ 2` truncates toward zero. It is modelled by `Div2`, not by
  Dafny's Euclidean `/`. With Euclidean division the odd part would not be
  antisymmetric, since `-1 / 2 == -1` there.
- `+` keeps the left operand's length. The loop at `src/signal.rs:64` runs over
  the left operand only, so a longer right operand loses its tail; the sum is
  not the longer operand's length. `AddExamples` shows `[1] + [2, 3] == [3]`.
- Summing the step components gives `s[j] - s[0]`, not `s[j]`, because the
  first component is all zeros. `StepReconstruction` proves this form.
- An empty signal gives two one-sample parts (`[0]` and `[0]`) in the even/odd
  decomposition, because `signal[0]` is a zero-padded read and the loop does not
  run. It gives one empty component in the step decomposition. Both cases are
  modelled.

## Model

| member | source | states |
|---|---|---|
| `Signal.AsI32` | src/signal.rs:52 | the cast of a length to `i32` never exceeds the length, and it is exact for lengths up to `i32::MAX` |
| `Signal.At` | src/signal.rs:39-45 | an unsigned read below the length returns the stored sample; at or beyond the length it returns 0 |
| `Signal.AtI32` | src/signal.rs:51-57 | a signed read never returns anything but 0 or a stored sample; when the length fits in `i32`, a negative or too-large index yields 0 and any other index yields the stored sample |
| `Signal.ReadsAreZeroPadded` | src/signal.rs:36-57 | the unsigned read agrees with the infinite zero-padded read for every signal; when the length fits in `i32`, so does the signed read, and the two agree on non-negative indices |
| `Signal.NewRoundTrip` | src/signal.rs:27-33 | the contract of `New` and `Len`: building a signal from a sample list and reading it back gives that list, with zeros beyond its end; the length is the list's length |
| `Signal.Add` | src/signal.rs:60-68 | `a + b` has the length of `a`, and sample `i` is `a[i]` plus the zero-padded `b[i]` |
| `Signal.PlusZeroExtends` | src/signal.rs:62-68 | a right operand no longer than the left adds sample by sample and acts as zero past its end; the length is always the left operand's |
| `Signal.AddExamples` | src/signal.rs:75-89 | the two addition test vectors, and a longer right operand whose tail is dropped |
| `Signal.Fold` | src/signal.rs:6-18 | `fold` returns `n + m - 1` samples, and sample `i` is the convolution sum over `j < m` of `rhs[j]` times the zero-padded `self[i - j]` |
| `Signal.ConvSumOverZeros` | src/signal.rs:12-14 | kernel terms whose coefficients are zero contribute nothing to the convolution sum |
| `Signal.FoldDelay` | src/signal.rs:98-103 | folding with a unit impulse at index `k` shifts the signal right by `k` behind `k` leading zeros |
| `Signal.FoldScale` | src/signal.rs:105-110 | folding with the kernel `[c]` multiplies every sample by `c` |
| `Signal.FoldIdentity` | src/signal.rs:91-96 | folding with the kernel `[1]` returns the signal unchanged |
| `Signal.FoldExamples` | src/signal.rs:91-110 | the identity, delay and amplify test vectors of `fold` |
| `Decomposition.ImpulseDecomposition` | src/lib.rs:6-14 | the loop builds exactly the impulse components of the signal |
| `Decomposition.ImpulseShape` | src/lib.rs:8-12 | there are `n` impulse components of length `n`, and component `i` holds `s[i]` at position `i` and 0 elsewhere |
| `Decomposition.ImpulsePrefixSum` | src/lib.rs:8-12 | the sum of the first `k` impulse components equals `s` below position `k` and is 0 from `k` on |
| `Decomposition.ImpulseReconstruction` | src/lib.rs:6-14 | summing all impulse components with `+` reconstructs the signal exactly |
| `Decomposition.ImpulseExamples` | src/lib.rs:52-66 | the single-sample and three-sample impulse test vectors |
| `Decomposition.StepDecomposition` | src/lib.rs:16-27 | the loops build exactly the step components of the signal |
| `Decomposition.StepShape` | src/lib.rs:17-24 | there are `n` components (one for an empty signal), each of length `n`; the first is all zeros, and component `i` is `s[i] - s[i-1]` from position `i` on and 0 before |
| `Decomposition.StepPrefixSum` | src/lib.rs:18-24 | the sum of the first `k` step components telescopes to `s[min(j, k-1)] - s[0]` at position `j` |
| `Decomposition.StepReconstruction` | src/lib.rs:16-27 | summing all step components with `+` gives `s[j] - s[0]` at every position |
| `Decomposition.StepExamples` | src/lib.rs:68-82 | the single-sample and three-sample step test vectors |
| `Decomposition.Div2` | src/lib.rs:41-42 | integer halving truncates toward zero: the remainder lies in `[0, 1]` for non-negative values and in `[-1, 0]` for negative ones |
| `Decomposition.Div2Negate` | src/lib.rs:42 | truncating halving commutes with negation |
| `Decomposition.EvenOddDecomposition` | src/lib.rs:29-45 | the loop builds exactly the even and odd parts, with the indices `i % n` and `(n - i) % n` |
| `Decomposition.ReduceBelowModulus` | src/lib.rs:39-40 | inside the loop the wrapped indices are `i` and `n - i` themselves |
| `Decomposition.EvenOddFromSamples` | src/lib.rs:30-44 | two sample lists that match the even and odd formulas at every position are the two parts |
| `Decomposition.EvenOddSymmetry` | src/lib.rs:30-43 | there are exactly two parts of length `n` with `even[0] = s[0]` and `odd[0] = 0`; `even[i] == even[n-i]` and `odd[i] == -odd[n-i]` for `1 <= i < n` |
| `Decomposition.EvenOddReconstruction` | src/lib.rs:38-43 | adding the two parts gives `s[0]` at 0, gives `s[i]` wherever `s[i] + s[n-i]` is even, and is off by at most one elsewhere |
| `Decomposition.EvenOddExample` | src/lib.rs:84-90 | the seven-sample even/odd test vector |

## Left out

- Floating-point samples: the `f64` arithmetic in `fold` and `+` is modelled as exact integer arithmetic.
- The generic trait `Signal`: the model has the one implementation, `AperiodicSignal`. The decompositions are written for it rather than for any `S: Signal`.
- Signal.Fold: requires `1 <= n + m <= 2^31` and `m <= 2^31 - 1`, the range in which the casts `(n + m - 1) as i32` and `m as i32` of the loop bounds are exact. With both operands empty, the `usize` subtraction `n + m - 1` panics in a debug build; in a release build it wraps, the cast gives -1 and `fold` returns an empty signal. Longer operands make the casts wrap. None of these cases is modelled.
- `reserve_exact` in the even/odd decomposition: it is a capacity hint and does not change the values.
- The derived `Debug`, `PartialEq` and `Clone` traits and the test harness. The tests appear only as example lemmas.
- The real DFT: it is not part of the modelled source files, and it would need trigonometric floating-point numerics.
