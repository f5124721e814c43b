# LinBox rational reconstruction, delayed modular accumulation and two solver-test helpers in Dafny

This project models three pieces of LinBox and proves properties about them.

- **Rational reconstruction from dyadic approximations**
  (`linbox/algorithms/dyadic-to-rational.h`):
  - `partial_hegcd`, a bounded walk along the extended Euclidean remainder
    sequence of `n` and `d`;
  - the scalar `dyadicToRational`, which rebuilds `a/b` from `n/d` and
    classifies the answer as failed (0), plausible (1) or guaranteed (2);
  - the vector `dyadicToRational`, which rebuilds numerators over one shared
    denominator. It tries the current denominator first with a balanced
    remainder. Where that fails it reconstructs the coordinate on its own and
    grows the denominator to an lcm. It records each growth factor on a stack
    and finally rescales the numerators written too early ("fix shorties").
- **The delayed-reduction accumulators** `FieldAXPY<GivaroZpz<Std32>>` and
  `FieldAXPY<GivaroZpz<Std16>>` (`linbox/field/givaro-zpz.h`). Products of
  field elements are added into an unsigned 64-bit (or 32-bit) word without
  reduction. A wrap-around is repaired by adding `Corr`, the residue of the
  word size. Only `get` reduces modulo the characteristic `p`.
- **From the nonsingular-solver test** (`tests/test-solve-nonsingular.C`):
  - `nextPower2`, which rounds a dimension up to a power of two;
  - the rule that turns random values into nonzero diagonal entries.

How the source is represented:

- The generic `Ring` is Dafny's unbounded `int`, with a specification `Gcd`
  and `Lcm` (module `Ring`).
- Machine words (`uint64_t`, `uint32_t`, `size_t`, `int64_t`, `int32_t`) are
  `int`, with wrap-around and signed reinterpretation written out.
- The `%` of the diagonal rule in test-solve-nonsingular.C applies to the
  ring's `Integer` type (`Givaro::ZRing<Integer>`, line 322). That library is
  not part of this model. Its `%` is taken to truncate toward zero like C's,
  so the remainder has the sign of the dividend. The bounds proved for the
  diagonal entries (nonzero, magnitude below 100000) hold under a flooring
  `%` as well.

Each loop of dyadic-to-rational.h is a Dafny `method` with a `while` loop,
proved against a recursive specification function:

| method | specification function |
|---|---|
| `PartialHegcd` | `Walk` |
| `VectorDyadicToRational` | `Forward` and `Step` |
| `FixShorties` | `FixUp` |

The inner scaling loop of the backward pass (`ScaleDown`, lines 194-196) and
the two loops of test-solve-nonsingular.C (`NextPower2`, lines 87-88, and
`DiagonalEntries`, lines 173-177) are `while` loops too, with closed-form
contracts: the scaled slice, the least power of two not below `n`, and the
entry rule applied at every index.

The accumulator is a class with the word `y`, `corr` and the characteristic
`p` as fields. A ghost field `total` holds the exact unbounded sum, and the
class invariant keeps `y` congruent to it modulo `p`.

Where the comments and the code differ, the model follows the code:

- The comment at dyadic-to-rational.h line 28 promises result 0 "if no such
  approximant exists". The code returns 0 only when `b == 0`, which happens
  exactly when `B < 1`; for any `B >= 1` without a well-approximated
  fraction it returns 1 with the last pair of the remainder sequence.
  `ReconstructionClassified` states the code's rule.
- `Z.axmyin(b, quo, b1)` at line 115 is read as its comment says:
  `b = b0 - quo * b1`.
- The well-approximated test of `partial_hegcd` is `2 r <= |b|`, at
  dyadic-to-rational.h line 121. The comment at line 91 says `2 r < |b|`.
- The scalar result is guaranteed only when `b * B < d` strictly, at line 81.
  The comment at line 33 says `bB <= d`. `ReconstructionClassified` states the
  code's rule. `ReconstructionUnique` proves the uniqueness claim of lines
  41-55 under the comment's `bB <= d`, and gives classification 2 only under
  the strict inequality.
- The vector routine's `return false` at line 181 returns 0.
- After a fallback the vector routine's result is 1 or stays what it was. The
  model proves the result never rises (`StepConsistent`). It also proves that a
  result of 1 comes from some coordinate whose own reconstruction was only
  plausible (`ForwardPlausible`).
- When the vector routine fails, the entries of `num` already written keep
  their unscaled values. The entry of the failing coordinate holds the
  unsigned quotient, or the unsigned rescaled numerator. Entries not yet
  reached are untouched. The model keeps exactly this
  (`VectorDyadicToRational`, case `ret == 0`).
- The vector routine's denominator stays 1 when every coordinate is accepted
  without a fallback, even when the bound is below 1. So the proved bound is
  `den == 1 || den <= denBound`.

## Model

All source paths are relative to the repository root. The Std16 accumulator
(givaro-zpz.h lines 313-370) is the same class as Std32, with `W = 2^32`, so
each `FieldAxpy` row also covers the matching Std16 lines.

| member | source | states |
|---|---|---|
| Ring.GcdDivides | linbox/linbox/algorithms/dyadic-to-rational.h:172 | The gcd of two naturals, not both zero, is positive and divides both. |
| Ring.Lcm | linbox/linbox/algorithms/dyadic-to-rational.h:172-176 | The lcm of two positive values is a positive common multiple, so the divisions at lines 173 and 176 are exact. |
| Ring.LcmLeast | linbox/linbox/algorithms/dyadic-to-rational.h:172 | The lcm divides every common multiple. |
| DyadicToRational.Walk | linbox/linbox/algorithms/dyadic-to-rational.h:111-125 | The do-while loop as a recursion. It returns true exactly when `2e <= abs(b)`, and then `abs(b) <= B`. When it fails, the pair handed back is within the bound or is the pair the loop started from. |
| DyadicToRational.PartialHegcd | linbox/linbox/algorithms/dyadic-to-rational.h:100-127 | The loop computes `Walk`. `e >= 0`. `e - b n` is a multiple of `d`, so the division at line 74 is exact. It returns true iff `2e <= abs(b)`, and then `abs(b) <= B`. With `B >= 1`, `b != 0`. It returns true iff some pair of the remainder sequence is well approximated within the bound. Termination follows from the remainders decreasing. |
| DyadicToRational.NextDescending | linbox/linbox/algorithms/dyadic-to-rational.h:112-117 | Every division step, the first one from `(n, 1)`, `(d, 0)` included, leads to a state whose remainders drop and whose coefficients are nonzero with alternating signs. |
| DyadicToRational.CoefficientsGrow | linbox/linbox/algorithms/dyadic-to-rational.h:111-123 | From such a state on, no later coefficient of the remainder sequence is smaller in magnitude. |
| DyadicToRational.WalkSearch | linbox/linbox/algorithms/dyadic-to-rational.h:111-125 | The walk stops on pair `k` of the remainder sequence. On success that pair is the first one that is well approximated within the bound. On failure no pair is, and every pair after `k` has a coefficient beyond the bound. |
| DyadicToRational.HegcdSearch | linbox/linbox/algorithms/dyadic-to-rational.h:87-98 | The search the comment describes, over the remainder sequence `PairOf(n, d, i)` from `(n, 1)` and `(d, 0)`. It returns true iff some pair has `2 r_i <= abs(q_i) <= B`, and then `(e, b)` is the first such pair. Otherwise `(e, b)` is the pair after which every coefficient exceeds `B`; for `B >= 0` it is the last pair within the bound. |
| DyadicToRational.DescentStep | linbox/linbox/algorithms/dyadic-to-rational.h:111-123 | After the first turn, each division step gives a nonzero coefficient of opposite sign and no smaller magnitude. |
| DyadicToRational.LatticeStep | linbox/linbox/algorithms/dyadic-to-rational.h:112-117 | A division step keeps both remainders as combinations `b n + c d`. The coefficient matrix keeps determinant ±1 and its alternating signs. |
| DyadicToRational.HegcdLattice | linbox/linbox/algorithms/dyadic-to-rational.h:106-125 | The pair `(e, b)` returned, starting from `(n, 1)` and `(d, 0)`, is a remainder `b n + c d` whose coefficient row belongs to a unimodular basis. |
| DyadicToRational.WalkNonzero | linbox/linbox/algorithms/dyadic-to-rational.h:111-123 | Once the descent has started, the coefficient the walk stops on is nonzero. |
| DyadicToRational.HegcdZeroCoefficient | linbox/linbox/algorithms/dyadic-to-rational.h:119-125 | `b == 0` exactly when the bound is below 1. Then the result is false. |
| DyadicToRational.DyadicToRational | linbox/linbox/algorithms/dyadic-to-rational.h:60-85 | The scalar routine computes `ReconstructionOf`. `b >= 0` and `a` has the sign of `n`. It returns 0 iff `b == 0` iff `B < 1`. A result of 2 has `0 < b <= B`, `b B < d` and `abs(n/d - a/b) <= 1/2d`. |
| DyadicToRational.NormalizedError | linbox/linbox/algorithms/dyadic-to-rational.h:70-79 | After the signs are fixed, `abs(n b - a d)` is the remainder `e`. |
| DyadicToRational.ReconstructionClassified | linbox/linbox/algorithms/dyadic-to-rational.h:81-84 | The classification both ways. 0 iff `b == 0` iff `B < 1`. 2 iff `b > 0`, `a/b` is within `1/2d` and `b B < d`. 1 iff `b > 0` and not that. Any success has `b <= B`. |
| DyadicToRational.ReconstructionCoprime | linbox/linbox/algorithms/dyadic-to-rational.h:73-79 | The returned `a` and `b` are coprime: some integer combination of them is 1. |
| DyadicToRational.WalkFinds | linbox/linbox/algorithms/dyadic-to-rational.h:111-123 | From any lattice state whose newer coefficient is at most `bs`, the walk finds a well-approximated pair with coefficient at most `bs`. This needs some `bs` with `bs <= B` and `bs^2 <= D` that approximates `n/d` strictly within `1/2d`. |
| DyadicToRational.HegcdFindsTarget | linbox/linbox/algorithms/dyadic-to-rational.h:87-92 | `partial_hegcd` returns true with `abs(b) <= bs` whenever some fraction with denominator `bs` lies strictly within `1/2d` of `n/d`, where `bs <= B` and `bs^2 <= d`. |
| DyadicToRational.WellApproximatedUnique | linbox/linbox/algorithms/dyadic-to-rational.h:45-52 | Two fractions within `1/2d` of `n/d`, one of them strictly, whose denominators multiply to at most `d`, are equal. |
| DyadicToRational.FoundWellApproximated | linbox/linbox/algorithms/dyadic-to-rational.h:73-79 | When `partial_hegcd` succeeds, the scalar `a/b` lies within `1/2d` of `n/d`, and `b = abs(b_found)`. |
| DyadicToRational.ReconstructionUnique | linbox/linbox/algorithms/dyadic-to-rational.h:41-55 | Take `a*/b*` with `0 < b* <= B` and `b* B <= d`, strictly within `1/2d` of `n/d`. Then the routine succeeds with `a/b = a*/b*` and `b <= b*`, and it returns 2 when `b* B < d`. |
| DyadicVector.Balanced | linbox/linbox/algorithms/dyadic-to-rational.h:156-159 | The balanced quotient and remainder satisfy `t = q denx + e` with `denx/2 - denx <= e < denx/2`, and `q >= 0` for `t >= 0`. |
| DyadicVector.Step | linbox/linbox/algorithms/dyadic-to-rational.h:153-186 | One coordinate of the forward loop writes exactly one numerator, keeps the earlier ones and keeps `den > 0`. |
| DyadicVector.Forward | linbox/linbox/algorithms/dyadic-to-rational.h:147-187 | The forward loop over a prefix. It stays as it was once it has failed, and a pass that has not failed has written every coordinate so far. |
| DyadicVector.ForwardStack | linbox/linbox/algorithms/dyadic-to-rational.h:144-181 | The result is 0, 1 or 2. The stack starts with the sentinel `(0, 1)` and records growth at non-decreasing coordinates already written, with positive factors. `den` is the product of the factors. |
| DyadicVector.StepStack | linbox/linbox/algorithms/dyadic-to-rational.h:172-179 | A step pushes at most one entry, at its own coordinate. It keeps `den` the product of the stack, and a push makes the new `den` a positive multiple of the old. |
| DyadicVector.ProdSplit | linbox/linbox/algorithms/dyadic-to-rational.h:174-177 | `den` is the denominator a numerator was written over times the factor it is still short by. |
| DyadicVector.LaterSuffix | linbox/linbox/algorithms/dyadic-to-rational.h:189-196 | The shortfall of a coordinate is the product of the factors pushed after it: the stack entries above it. |
| DyadicVector.ReconstructionOfAbs | linbox/linbox/algorithms/dyadic-to-rational.h:166 | Reconstructing `abs(x)` gives the same classification and denominator as reconstructing `x`, with the sign of `x` moved onto `a`. |
| DyadicVector.WithinScale | linbox/linbox/algorithms/dyadic-to-rational.h:174 | Scaling a numerator and its denominator by a positive factor keeps the `1/2denx` approximation. |
| DyadicVector.ConsistentScale | linbox/linbox/algorithms/dyadic-to-rational.h:195 | Scaling a numerator and its denominator by a positive factor keeps it consistent with its approximation. |
| DyadicVector.AcceptedConsistent | linbox/linbox/algorithms/dyadic-to-rational.h:154-164 | An accepted coordinate (`2 abs(e) <= den`), signed as at line 185, is within `1/2denx` of `numx[i]/denx` and has its sign. |
| DyadicVector.ReconstructedConsistent | linbox/linbox/algorithms/dyadic-to-rational.h:166-185 | A reconstructed coordinate rescaled to the lcm has the sign of `numx[i]`. It is within `1/2denx` when its own reconstruction is guaranteed, and equals that plausible `a/b` otherwise. |
| DyadicVector.StepConsistent | linbox/linbox/algorithms/dyadic-to-rational.h:153-186 | A step that does not fail writes a consistent coordinate, never raises the result, and keeps a result of 1 at 1. |
| DyadicVector.RawConsistent | linbox/linbox/algorithms/dyadic-to-rational.h:153-187 | Every numerator the forward loop writes is consistent with its approximation over the denominator it was written over. |
| DyadicVector.VectorConsistent | linbox/linbox/algorithms/dyadic-to-rational.h:153-199 | After the fix-up, every numerator over the final `den` has the sign of `numx[i]`. It is within `1/2denx` of `numx[i]/denx`, or the result is 1 and it equals that coordinate's plausible `a/b`. |
| DyadicVector.ForwardDenBound | linbox/linbox/algorithms/dyadic-to-rational.h:180-181 | A pass that has not failed has `den == 1` or `den <= denBound`. |
| DyadicVector.ForwardDenGrows | linbox/linbox/algorithms/dyadic-to-rational.h:172-179 | `den` never decreases: a later `den` is a multiple of an earlier one. |
| DyadicVector.StepMonotone | linbox/linbox/algorithms/dyadic-to-rational.h:167-179 | A step moves `den` to a multiple of itself, never raises the result, and keeps `den` when it keeps the stack. |
| DyadicVector.ForwardRecorded | linbox/linbox/algorithms/dyadic-to-rational.h:166-179 | Each growth of `den` comes from a coordinate whose own reconstruction succeeded with a denominator dividing `den`. That reconstruction is classified no lower than the running result. |
| DyadicVector.ForwardPlausible | linbox/linbox/algorithms/dyadic-to-rational.h:167 | A result of 1 comes from a coordinate whose own reconstruction was only plausible. |
| DyadicVector.ForwardDenLeast | linbox/linbox/algorithms/dyadic-to-rational.h:172 | `den` divides every common multiple of the recorded denominators: it is their lcm. |
| DyadicVector.StepDenIsLcm | linbox/linbox/algorithms/dyadic-to-rational.h:172-179 | A step that pushes takes `den` to `lcm(b, den)`, where `b` is that coordinate's reconstructed denominator. |
| DyadicVector.ForwardFailed | linbox/linbox/algorithms/dyadic-to-rational.h:168 | Once a fallback fails (line 168) or `den` exceeds the bound (line 181), the pass stops where it is. |
| DyadicVector.Coordinate | linbox/linbox/algorithms/dyadic-to-rational.h:154-185 | One turn of the forward loop produces exactly the state `Step` specifies. |
| DyadicVector.VectorDyadicToRational | linbox/linbox/algorithms/dyadic-to-rational.h:129-201 | Returns the result and `den` of `Forward`, with the result in {0, 1, 2}, `den > 0`, and `den == 1` or `den <= denBound` on success. On success `num` is the fixed-up numerators, each consistent with its approximation over `den`. On failure it holds the raw numerators written so far, with the rest untouched. |
| DyadicVector.FixedFromStart | linbox/linbox/algorithms/dyadic-to-rational.h:188-190 | Before the backward loop, the numerators from the last growth on already carry their final scale. |
| DyadicVector.FixedFromStep | linbox/linbox/algorithms/dyadic-to-rational.h:190-196 | One turn of the backward loop extends the final part down to the next stack entry. |
| DyadicVector.ScaleDown | linbox/linbox/algorithms/dyadic-to-rational.h:194-196 | The inner loop multiplies exactly `num[j..k)` by `t` and leaves the rest of `num` as it was. |
| DyadicVector.PoppingStep | linbox/linbox/algorithms/dyadic-to-rational.h:190-197 | The backward loop's invariant is kept. The stack is a prefix of the recorded one, `t` is the product of the popped factors, and the coordinates above the top are final. |
| DyadicVector.FixShorties | linbox/linbox/algorithms/dyadic-to-rational.h:188-198 | After the backward loop, every numerator is its raw value times the product of the factors pushed after it was written. |
| GivaroZpzAxpy.CorrOf | linbox/linbox/field/givaro-zpz.h:258-260 | `Corr = (W - 1) mod p + 1` lies in `[1, p]` and is congruent to `W` (`2^64`, or `2^32` for Std16, line 321) modulo `p`. |
| GivaroZpzAxpy.WrapAdd | linbox/linbox/field/givaro-zpz.h:271-272 | Unsigned addition: it wraps exactly when the sum reaches `W`, and that is exactly when the result is below the addend (the `_y < t` test). |
| GivaroZpzAxpy.CorrectedAdd | linbox/linbox/field/givaro-zpz.h:270-275 | One wrap-and-correct step. It adds exactly when nothing wraps. When the addend leaves room for `Corr`, the correction cannot wrap again and the word stays congruent to `y + t` modulo `p`. |
| GivaroZpzAxpy.WrappedCongruent | linbox/linbox/field/givaro-zpz.h:272-273 | After a wrap, adding `Corr` gives `y + t - W + Corr` without wrapping again, which is congruent to `y + t`. |
| GivaroZpzAxpy.FoldCongruent | linbox/linbox/field/givaro-zpz.h:268-285 | Any sequence of accumulations keeps the word congruent to the exact sum modulo `p`, however many wrap-arounds happen. |
| GivaroZpzAxpy.FoldExact | linbox/linbox/field/givaro-zpz.h:268-285 | While the exact sum fits the word, the word is the exact sum. |
| GivaroZpzAxpy.ToSigned | linbox/linbox/field/givaro-zpz.h:289 | The `int64_t` (`int32_t`) reading of a word is negative exactly when the word is at least `W/2`. |
| GivaroZpzAxpy.ReducedNonNegative | linbox/linbox/field/givaro-zpz.h:288-289 | The sign test in `get` never fires on a reduced word. |
| GivaroZpzAxpy.ProductFits | linbox/linbox/field/givaro-zpz.h:270 | The product of two elements never wraps and leaves room for one `Corr` for every characteristic a signed element holds (below `2^31`, or `2^15` for Std16). |
| GivaroZpzAxpy.ReduceKeeps | linbox/linbox/field/givaro-zpz.h:288 | Reducing the word modulo `p` gives the residue of the exact total. |
| GivaroZpzAxpy.FieldAxpy.Std32 | linbox/linbox/field/givaro-zpz.h:258-260 | Constructor from the field: empty word and `Corr` for `2^64`, for any characteristic `2 <= p < 2^31`. |
| GivaroZpzAxpy.FieldAxpy.Std16 | linbox/linbox/field/givaro-zpz.h:320-322 | Constructor from the field: empty word and `Corr` for `2^32`, for any characteristic `2 <= p < 2^15`. |
| GivaroZpzAxpy.FieldAxpy.Copy | linbox/linbox/field/givaro-zpz.h:261-263 | Copy constructor: same field and `Corr`, with the word reset to 0. |
| GivaroZpzAxpy.FieldAxpy.CopyFrom | linbox/linbox/field/givaro-zpz.h:265-266 | `operator=`: copies the field, the word and `Corr`. |
| GivaroZpzAxpy.FieldAxpy.MulAcc | linbox/linbox/field/givaro-zpz.h:268-276 | `mulacc`: the new word is the wrap-and-correct sum of the old word and `a x`, and is congruent to `old word + a x` modulo `p`. It returns the word and keeps `p` and `Corr`. |
| GivaroZpzAxpy.FieldAxpy.Accumulate | linbox/linbox/field/givaro-zpz.h:278-285 | `accumulate`: the same for an element `t`. |
| GivaroZpzAxpy.FieldAxpy.Get | linbox/linbox/field/givaro-zpz.h:287-292 | `get` stores the reduced word back and returns it. It is an element in `[0, p)`, equal to the old word mod `p` and to the exact total mod `p`. |
| GivaroZpzAxpy.FieldAxpy.Assign | linbox/linbox/field/givaro-zpz.h:294-295 | `assign` sets the word to the element and leaves `Corr` unchanged. |
| GivaroZpzAxpy.FieldAxpy.Reset | linbox/linbox/field/givaro-zpz.h:297-299 | `reset` sets the word to 0 and leaves `Corr` unchanged. |
| SolveNonsingular.ShiftLeft | tests/test-solve-nonsingular.C:88 | `p <<= 1` on a `size_t` doubles `p` below `2^63` and turns `2^63` into 0. |
| SolveNonsingular.ShiftedValue | tests/test-solve-nonsingular.C:87-88 | After `k` shifts of 1 the word is `2^k` for `k < 64` and 0 from then on. |
| SolveNonsingular.NextPower2NeverExits | tests/test-solve-nonsingular.C:86-90 | For `2^63 < n < 2^64`, the loop test `p < n` holds after any number of turns. |
| SolveNonsingular.NextPower2 | tests/test-solve-nonsingular.C:86-90 | For `n <= 2^63` it returns a power of two `p >= n`. It is 1 for `n <= 1`, and `p < 2n` for `n >= 1`. |
| SolveNonsingular.NextPower2Least | tests/test-solve-nonsingular.C:86-90 | The result is the least power of two at least `n`. |
| SolveNonsingular.NextPower2Idempotent | tests/test-solve-nonsingular.C:86-90 | On a power of two the result is that power. |
| SolveNonsingular.TruncRem | tests/test-solve-nonsingular.C:175 | `%` taken as truncating toward zero: the remainder is congruent to `x`, lies strictly between `-m` and `m`, and has the sign of `x`. |
| SolveNonsingular.DiagonalEntry | tests/test-solve-nonsingular.C:175-176 | The entry is nonzero with `abs(xx) < 100000`. It is 1 when `x` is a multiple of 100000, and otherwise congruent to `x` with the same sign. |
| SolveNonsingular.DiagonalEntries | tests/test-solve-nonsingular.C:173-177 | The loop over `i` builds one entry per value of `d`, each `DiagonalEntry(d[i])`, so each is nonzero and below 100000 in magnitude. |

## Left out

- I/O, timers and the commentator output of the test drivers are not modelled.
- The test driver at the end of dyadic-to-rational.h is left out.
  - Its first test builds its inputs with `floor(double(...))`, which is
    floating point.
  - Its worked example, which expects `den = 691617936`, is built from
    integer literals. It is not stated as a lemma: checking it would mean
    evaluating the forward pass, with its gcds, on ten 20-digit numerators
    over `2^64`, which is far more unfolding than the verifier does.
- The commented-out `rational_reconstruction` after the vector routine is dead
  code and is not modelled.
- The `Ring` abstraction is not modelled as a generic back end. Its elements
  are unbounded `int`, and `Z.lcm` is `Ring.Lcm`, the lcm of two positive values; how the ring
  computes it is not modelled.
- GivaroZpz itself is left out: the float `init`/`fmod`, the Log16 Zech-log
  tables, `DotProductDomain`, and the field operations other than
  `characteristic()`. The field is represented by its characteristic `p`.
- `FieldAxpy`:
  - the constructors require `2 <= p < 2^31` (Std32) or `2 <= p < 2^15`
    (Std16): the positive values the signed element type holds. The smaller
    `getMaxModulus` limits documented at givaro-zpz.h lines 205 and 208
    (46339 and 255) are not enforced by the field and are not required;
  - `mulacc`, `accumulate` and `assign` require elements in `[0, p)`, which
    is how the field stores them;
  - `get` is modelled as returning the element rather than writing into a
    reference.
- `GivaroZpzAxpy.FieldAxpy.MulAcc`, `GivaroZpzAxpy.FieldAxpy.Accumulate`: they
  return the new word by value, not a reference into the object.
- The rest of test-solve-nonsingular.C is not part of this model: random
  streams, the matrix set-up, the LAPACK, MATLAB, SuperLU and Dixon solvers,
  and argument parsing. The random values `d[i]` are taken as inputs. The
  diagonal rule does not need them to be nonzero.
- `linbox/algorithms/blas-domain.inl` (FFLAS/FFLAPACK wrappers),
  `linbox/blackbox/null-matrix.h` and `equation-editor/src/renderer.c` are not
  part of this model. They hold only foreign calls, output and GUI code.
- `DyadicVector.VectorDyadicToRational`:
  - the stack of pairs is a sequence of `Growth(at, factor)`, with the top
    at the end;
  - one turn of the forward loop is written as the method
    `DyadicVector.Coordinate`;
  - the `int` casts of `size_t` indices in the backward loop are taken as
    exact, because indices fit.
- `SolveNonsingular.NextPower2`: requires `n <= 2^63`. For larger `n` the
  source does not terminate (see Findings).

## Findings

| source | as written | input that shows it | evidently intended | confidence | as-written member | corrected member |
|---|---|---|---|---|---|---|
| tests/test-solve-nonsingular.C:86-90 | `while (p < n) p <<= 1` on a `size_t`: past `2^63` the shift wraps `p` to 0 and the loop never ends | `n = 2^63 + 1` | the smallest power of two at least `n`, for every `n` that has one in a `size_t` (`n <= 2^63`) | not executed; dimensions this large never reach it in practice | SolveNonsingular.NextPower2NeverExits | SolveNonsingular.NextPower2 |
