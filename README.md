# hse-cpp-classes polynomials and matrices in Dafny

This project models the algebraic core of the repository: its two single-variable polynomial types
and its rectangular matrix with a row-major iterator.

There are two polynomial representations.

- The **dense polynomial** (`polynomial_dense.cpp`) stores a coefficient vector indexed by
  exponent. `cut()` pops trailing zeros.
- The **sparse polynomial** (`polynomial_sparse.cpp`) stores a `std::map` from exponent to
  coefficient and never keeps a zero; `set()` enforces this.

Both are Dafny classes whose methods update their field in place, as the C++ operators do. Two
pieces of shared specification connect them:

- **PolySpec** defines the abstract polynomial: a `seq<real>` with no trailing zero, in which the
  zero polynomial is `[]` and has degree -1. It also defines coefficientwise `Add`/`Sub`/`Scale`,
  the convolution `Mul`, Horner `Eval`, `PolyPow`, `Compose`, and the division and divisibility
  predicates.
- **PolyLaws** and **PolyDivision** prove the laws about that abstraction: ring laws, evaluation
  as a homomorphism, composition, and the invariants of long division and of the Euclidean
  algorithm.

The dense class holds such a sequence directly. The sparse class holds a `map<nat, real>` and is
related to a sequence by `AbsOf`. Every operation of either class states its result as a PolySpec
function of the old state, so both representations give the same results by construction.

**Matrices** models `Matrix<T>` as a class with `rows`, `cols` and `m: seq<seq<int>>`. Each
in-place operator is stated against a specification function: `Sum`, `Scale`, `Product` (built
from the recursive `Dot`) or `TransposeOf`. Laws are proved about those functions. The iterator is
a class with mutable `i`, `j` fields. Its step function `Step` is proved to walk the matrix in
row-major order.

Modelling choices:

- Polynomial coefficients are `real`: division and the GCD need exact field division. Matrix
  entries are `int`.
- `std::map` traversal is the ascending sequence of its keys (`Traversal`). Each `for (auto it …)`
  loop is a loop over that sequence.
- A loop is proved against a fold function (`AccFold`, `RowFold`, `MulFold`) or a loop-state
  predicate (`ProductState`, `TransposeState`, `Partial`).
- `size_t` bit operations `b & 1` and `b >>= 1` are `b % 2 == 1` and `b / 2` on a `nat`.
- Local copies such as `tmp = other` and `copy = *this` are taken as values. This is why `a *= a`
  and `a += a` are modelled correctly.
- Results that only exist for the proof are returned as ghost out-parameters:
  - the loop count of `/`;
  - the Bezout cofactors and the divisibility witnesses of `,`;
  - the squaring count of `b_pow` and `pow`.

## Model

| member | source | states |
|---|---|---|
| DensePolynomial.Polynomial.Cut | polynomial_dense.cpp:11-14 | p becomes the trimmed old p: trailing zeros are gone and every coefficient is unchanged |
| DensePolynomial.Polynomial.constructor | polynomial_dense.cpp:17 | the default polynomial is the zero polynomial `[]` |
| DensePolynomial.Polynomial.FromSeq | polynomial_dense.cpp:19-21 | the vector constructor stores v with its trailing zeros cut |
| DensePolynomial.Polynomial.FromConst | polynomial_dense.cpp:23-26 | the scalar constructor gives the constant polynomial k, which is `[]` when k is zero |
| DensePolynomial.Polynomial.Copy | polynomial_dense.cpp:128 | the copy holds the same coefficients |
| DensePolynomial.Polynomial.Degree | polynomial_dense.cpp:73-76 | under the no-trailing-zero invariant the degree is -1 exactly for the zero polynomial; otherwise the coefficient at the degree is nonzero and every higher one is zero |
| DensePolynomial.Polynomial.Get | polynomial_dense.cpp:78-81 | `p[i]` is the stored coefficient, or zero past the end, and never fails |
| DensePolynomial.Polynomial.Equals | polynomial_dense.cpp:83-87 | `==` holds iff the coefficient sequences are identical |
| DensePolynomial.Polynomial.NotEquals | polynomial_dense.cpp:89-92 | `!=` holds iff the coefficient sequences differ |
| DensePolynomial.Polynomial.AddAssign | polynomial_dense.cpp:94-102 | every coefficient becomes the sum of the old ones, and the result is re-trimmed when the leading terms cancel |
| DensePolynomial.Polynomial.SubAssign | polynomial_dense.cpp:104-112 | every coefficient becomes the difference of the old ones, and the result is re-trimmed |
| DensePolynomial.SizeCovers | polynomial_dense.cpp:116-120 | for nonzero operands the buffer of size n * m covers the highest index n + m - 2 |
| DensePolynomial.RowDone | polynomial_dense.cpp:118-120 | after the inner loop for i, each buffer cell k holds the convolution sum over the first i + 1 entries of p |
| DensePolynomial.ProductFromCells | polynomial_dense.cpp:121-122 | the full buffer, once cut, is the product polynomial |
| DensePolynomial.Polynomial.MulAssign | polynomial_dense.cpp:114-124 | p becomes the convolution of the old operands (`(p*q)[k]` is the sum of `p[i]*q[j]` over i + j = k); a zero operand gives the zero polynomial; `a *= a` squares a |
| DensePolynomial.Polynomial.Sum | polynomial_dense.cpp:126-131 | `+` returns a fresh polynomial holding the sum and leaves both operands unchanged |
| DensePolynomial.Polynomial.Difference | polynomial_dense.cpp:133-138 | `-` returns a fresh polynomial holding the difference |
| DensePolynomial.Polynomial.Product | polynomial_dense.cpp:140-145 | `*` returns a fresh polynomial holding the product |
| DensePolynomial.ComposeStep | polynomial_dense.cpp:152-153 | one pass of `&`: res gains cur * p[i], then cur is multiplied by r |
| DensePolynomial.Polynomial.Compose | polynomial_dense.cpp:147-156 | `&` returns the composition p(r(x)), the sum of p[i] * r^i |
| DensePolynomial.TermVector | polynomial_dense.cpp:163-165 | the vector of dif zeros followed by c, once cut, is the single term c * x^dif |
| DensePolynomial.DivideStep | polynomial_dense.cpp:162-167 | one pass of `/`: res gains the term that cancels the leading coefficient of cur, and cur loses other times that term |
| DensePolynomial.Polynomial.Quotient | polynomial_dense.cpp:158-170 | for a nonzero divisor, `/` returns q with q * d + (p - q * d) == p and deg(p - q * d) < deg d, after at most deg p - deg d + 1 passes |
| DensePolynomial.Polynomial.Remainder | polynomial_dense.cpp:172-175 | `%` is the remainder of a division of p by d: deg r < deg d and q * d + r == p |
| DensePolynomial.EuclidLoop | polynomial_dense.cpp:179-183 | the loop of `,` ends with other zero; cur and the operands are combinations of one another; a zero second operand leaves cur equal to the first |
| DensePolynomial.Polynomial.Gcd | polynomial_dense.cpp:177-185 | for operands not both zero, `,` returns a monic polynomial that divides both operands and is s * p + t * r; `(p, 0)` is p divided by its leading coefficient; its degree is at most that of each nonzero operand |
| DensePolynomial.Polynomial.Eval | polynomial_dense.cpp:187-197 | `()` returns the sum of p[i] * v^i, which is 0 for the zero polynomial and equals Horner's value |
| SparsePolynomial.Polynomial.Get | polynomial_sparse.cpp:12-14 | `get(i)` is the stored coefficient, zero for an absent exponent; under the invariant it is nonzero iff i is stored |
| SparsePolynomial.StoredLookup | polynomial_sparse.cpp:16-21 | `set(i, v)` changes the coefficient of x^i to v and no other, and keeps "no stored zero" |
| SparsePolynomial.Polynomial.Set | polynomial_sparse.cpp:16-21 | `set` erases the key for a zero value and otherwise inserts or overwrites it |
| SparsePolynomial.Polynomial.BPow | polynomial_sparse.cpp:23-34 | `b_pow(a, b)` is a^b, including 1 for b == 0, reached after exactly floor(log2 b) squarings |
| SparsePolynomial.BPowStep | polynomial_sparse.cpp:26-31 | one pass of square-and-multiply keeps res * a^b invariant |
| SparsePolynomial.PowStep | polynomial_sparse.cpp:39-44 | one pass of `pow` keeps res * cur^b invariant |
| SparsePolynomial.Polynomial.Pow | polynomial_sparse.cpp:36-47 | `pow(b)` is the b-fold product of the polynomial (1 for b == 0), through `cur *= cur` squarings, floor(log2 b) of them |
| SparsePolynomial.Polynomial.constructor | polynomial_sparse.cpp:50 | the default polynomial is the empty map, the zero polynomial |
| SparsePolynomial.Polynomial.FromSeq | polynomial_sparse.cpp:52-55 | `set(i, v[i])` for every i stands for v with its trailing zeros cut, and stores no zero |
| SparsePolynomial.Polynomial.FromConst | polynomial_sparse.cpp:57-59 | `set(0, k)` gives the constant polynomial k |
| SparsePolynomial.Polynomial.Copy | polynomial_sparse.cpp:159 | the copy holds the same map |
| SparsePolynomial.Traversal | polynomial_sparse.cpp:108-112 | the map's iteration order visits every stored exponent once, in increasing order, and ends at the largest |
| SparsePolynomial.Polynomial.Degree | polynomial_sparse.cpp:106-113 | -1 iff the map is empty, otherwise the last (largest) key; under the invariant this is the degree of the coefficient sequence |
| SparsePolynomial.AbsEquality | polynomial_sparse.cpp:120-124 | two maps with no stored zero are equal iff they stand for the same coefficient sequence |
| SparsePolynomial.EntriesEqual | polynomial_sparse.cpp:122-123 | equal degrees followed by `std::equal` over the entries holds iff the maps are equal; it never reads past the end of the other map |
| SparsePolynomial.Polynomial.Equals | polynomial_sparse.cpp:120-124 | `==` holds iff the maps are equal, and, under the invariant, iff the polynomials are |
| SparsePolynomial.Polynomial.NotEquals | polynomial_sparse.cpp:126-129 | `!=` is the negation of `==` |
| SparsePolynomial.AccFoldAt | polynomial_sparse.cpp:134-135 | after n passes of the `+=` (or `-=`) loop, a coefficient visited so far holds the sum (or difference); any other keeps its old value |
| SparsePolynomial.AccFoldNoZero | polynomial_sparse.cpp:134-135 | the `+=`/`-=` loop never stores a zero |
| SparsePolynomial.AccFoldAbs | polynomial_sparse.cpp:131-145 | the whole `+=` (or `-=`) loop computes the coefficientwise sum (or difference), pruning zeros |
| SparsePolynomial.Polynomial.AddAssign | polynomial_sparse.cpp:131-137 | the new polynomial is the coefficientwise sum, so only the exponents of other change, and the invariant is kept |
| SparsePolynomial.Polynomial.SubAssign | polynomial_sparse.cpp:139-145 | the new polynomial is the coefficientwise difference, and the invariant is kept |
| SparsePolynomial.RowFoldAt | polynomial_sparse.cpp:152-153 | after n passes of the inner loop of `*=` for entry (e, c), coefficient k has gained c * q[k - e] over the visited entries |
| SparsePolynomial.RowFoldNoZero | polynomial_sparse.cpp:152-153 | the inner loop of `*=` never stores a zero |
| SparsePolynomial.Polynomial.AddRow | polynomial_sparse.cpp:152-153 | the inner loop of `*=` leaves the map its fold function describes |
| SparsePolynomial.MulFoldAt | polynomial_sparse.cpp:150-153 | after the outer loop has visited n entries, each coefficient is the convolution sum over the exponents passed |
| SparsePolynomial.MulFoldNoZero | polynomial_sparse.cpp:150-153 | the outer loop of `*=` never stores a zero |
| SparsePolynomial.MulFoldAbs | polynomial_sparse.cpp:147-155 | the whole `*=` loop over stored terms computes the convolution product and stores no zero |
| SparsePolynomial.Polynomial.MulAssign | polynomial_sparse.cpp:147-155 | the new polynomial is the product of the old operands; the snapshots make `cur *= cur` square cur |
| SparsePolynomial.Polynomial.Sum | polynomial_sparse.cpp:157-162 | `+` returns a fresh polynomial holding the sum |
| SparsePolynomial.Polynomial.Difference | polynomial_sparse.cpp:164-169 | `-` returns a fresh polynomial holding the difference |
| SparsePolynomial.Polynomial.Product | polynomial_sparse.cpp:171-176 | `*` returns a fresh polynomial holding the product |
| SparsePolynomial.ComposeNext | polynomial_sparse.cpp:181-182 | the entry (e, c) extends the partial composition to exponent e, since no exponent between the previous entry and e is stored |
| SparsePolynomial.ComposeTerm | polynomial_sparse.cpp:182 | `res += r.pow(e) * c` adds the term r^e * c |
| SparsePolynomial.ComposeDone | polynomial_sparse.cpp:179-184 | after the traversal the running sum is the whole composition |
| SparsePolynomial.Polynomial.Compose | polynomial_sparse.cpp:178-184 | `&` is the sum of c * r^e over the stored entries, equal to the dense composition p(r(x)) |
| SparsePolynomial.DivideStep | polynomial_sparse.cpp:190-194 | one pass of `/`: the term built by `t.set(dif, …)` is added to res, and other * t is subtracted from cur |
| SparsePolynomial.Polynomial.Quotient | polynomial_sparse.cpp:186-197 | for a nonzero divisor, `/` obeys the dense laws: q * d + r == p, deg r < deg d, at most deg p - deg d + 1 passes |
| SparsePolynomial.Polynomial.Remainder | polynomial_sparse.cpp:199-202 | `%` is the remainder of a division of p by d |
| SparsePolynomial.EuclidLoop | polynomial_sparse.cpp:206-210 | the loop of `,` ends with other zero, with cur and the operands combinations of each other; a zero second operand leaves cur equal to the first |
| SparsePolynomial.Polynomial.Gcd | polynomial_sparse.cpp:204-212 | for operands not both zero, `,` returns a monic common divisor that is s * p + t * r; `(p, 0)` is p made monic; its degree is at most that of each nonzero operand |
| SparsePolynomial.EvalNext | polynomial_sparse.cpp:217-218 | the entry (e, c) adds c * v^e to the running value, since no exponent in between is stored |
| SparsePolynomial.EvalDone | polynomial_sparse.cpp:215-220 | after the traversal the running value is Horner's value |
| SparsePolynomial.Polynomial.Eval | polynomial_sparse.cpp:214-220 | `()` is the sum of c * b_pow(v, e) over stored entries, which equals the dense value for the same coefficients |
| PolySpec.Trim | polynomial_dense.cpp:11-14 | removing trailing zeros keeps every coefficient and leaves no trailing zero |
| PolySpec.Ext | polynomial_dense.cpp:83-87 | two trimmed sequences with the same coefficients are equal, so canonical form makes `==` mean equality of polynomials |
| PolySpec.Add | polynomial_dense.cpp:94-102 | the sum of polynomials is trimmed and coefficientwise |
| PolySpec.Sub | polynomial_dense.cpp:104-112 | the difference of polynomials is trimmed and coefficientwise |
| PolyLaws.AddSubCancel | polynomial_dense.cpp:126-138 | (p + q) - q == p |
| PolyLaws.MulZeroLeft | polynomial_dense.cpp:114-124 | a zero left operand gives the zero product |
| PolyLaws.MulZeroRight | polynomial_dense.cpp:114-124 | a zero right operand gives the zero product |
| PolyLaws.MulComm | polynomial_dense.cpp:114-124 | multiplication is commutative |
| PolyLaws.MulAssoc | polynomial_dense.cpp:114-124 | multiplication is associative |
| PolyLaws.MulAddLeft | polynomial_dense.cpp:114-124 | multiplication distributes over addition on the left |
| PolyLaws.MulAddRight | polynomial_dense.cpp:114-124 | multiplication distributes over addition on the right |
| PolyLaws.MulSubLeft | polynomial_dense.cpp:114-124 | multiplication distributes over subtraction on the left |
| PolyLaws.MulSubRight | polynomial_dense.cpp:114-124 | multiplication distributes over subtraction on the right |
| PolyLaws.MulConst | polynomial_dense.cpp:152 | multiplying by the constant c scales every coefficient by c, on either side |
| PolyLaws.MulOne | polynomial_dense.cpp:150 | the constant 1 is the unit of multiplication |
| PolyLaws.MulLead | polynomial_dense.cpp:114-124 | the product of nonzero polynomials has length |p| + |q| - 1 and leading coefficient Lead(p) * Lead(q) |
| PolyLaws.ConvComm | polynomial_dense.cpp:118-120 | the convolution sum is symmetric in its operands |
| PolyLaws.EvalAdd | polynomial_dense.cpp:187-197 | (p + q)(v) == p(v) + q(v) |
| PolyLaws.EvalSub | polynomial_dense.cpp:187-197 | (p - q)(v) == p(v) - q(v) |
| PolyLaws.EvalScale | polynomial_dense.cpp:187-197 | (c * p)(v) == c * p(v) |
| PolyLaws.EvalConst | polynomial_dense.cpp:187-197 | a constant evaluates to itself |
| PolyLaws.EvalMul | polynomial_dense.cpp:187-197 | (p * q)(v) == p(v) * q(v) |
| PolyLaws.EvalUpToEval | polynomial_dense.cpp:191-196 | the term-by-term running sum of `()` equals Horner's value |
| PolyLaws.EvalPolyPow | polynomial_sparse.cpp:36-47 | r^n evaluates to r(v)^n |
| PolyLaws.PolyPowAdd | polynomial_sparse.cpp:36-47 | r^(m + n) == r^m * r^n |
| PolyLaws.PolyPowSquare | polynomial_sparse.cpp:44 | (r * r)^n == r^(2n), which justifies squaring cur |
| PolyLaws.PowerAdd | polynomial_sparse.cpp:23-34 | v^(m + n) == v^m * v^n |
| PolyLaws.PowerSquare | polynomial_sparse.cpp:31 | (v * v)^n == v^(2n), which justifies squaring a |
| PolyLaws.EvalComposeUpTo | polynomial_dense.cpp:151-154 | after i passes of `&`, the running composition evaluates to the first i terms of p at r(v) |
| PolyLaws.EvalCompose | polynomial_dense.cpp:147-156 | (p & r)(v) == p(r(v)) |
| PolyDivision.CoeffMulMono | polynomial_dense.cpp:167 | multiplying by c * x^e shifts the coefficients by e and scales them by c |
| PolyDivision.DivStepShrinks | polynomial_dense.cpp:161-167 | one pass of `/` strictly shortens cur, so the loop ends for a nonzero divisor |
| PolyDivision.DivStepKeeps | polynomial_dense.cpp:166-167 | one pass of `/` keeps q * d + cur == p |
| PolyDivision.DivStep | polynomial_dense.cpp:161-167 | one pass keeps the division invariant and shortens cur |
| PolyDivision.DivDone | polynomial_dense.cpp:161 | when deg cur < deg d the loop's q and cur are quotient and remainder |
| PolyDivision.DivisionUnique | polynomial_dense.cpp:158-175 | quotient and remainder by a nonzero divisor are unique |
| PolyDivision.DivByConstant | polynomial_dense.cpp:184 | dividing by a nonzero constant leaves no remainder |
| PolyDivision.RemainderIsSub | polynomial_dense.cpp:172-175 | a remainder m with q * d + m == p is p - q * d, as `%` computes it |
| PolyDivision.EuclidStart | polynomial_dense.cpp:179 | the Euclidean invariant holds with cur = p and other = r |
| PolyDivision.EuclidStep | polynomial_dense.cpp:180-183 | `cur = cur % other; swap` keeps both operands combinations of cur and other, and the reverse |
| PolyDivision.EuclidNonZero | polynomial_dense.cpp:184 | when the loop stops, cur is nonzero unless both operands are zero |
| PolyDivision.EuclidFinish | polynomial_dense.cpp:184 | dividing cur by its leading coefficient gives a monic common divisor that is a combination of the operands and is cur scaled |
| PolyDivision.CommonDivisor | polynomial_dense.cpp:177-185 | every common divisor of p and r divides a * p + b * r, so it divides the result of `,` |
| PolyDivision.MonicQuotient | polynomial_dense.cpp:184 | dividing a nonzero polynomial by its leading coefficient gives a monic polynomial |
| PolyDivision.QuotientByLead | polynomial_dense.cpp:184 | that quotient is the polynomial scaled by the inverse of its leading coefficient |
| PolyDivision.GcdDegree | polynomial_dense.cpp:177-185 | a divisor of a nonzero polynomial has degree at most that polynomial's, so the result of `,` has degree at most min(deg p, deg r) over the nonzero operands |
| Matrices.Matrix.constructor | matrix.cpp:16-19 | rows is the number of rows and cols the length of the first row, or 0 when there is none; the matrix is rectangular iff every row has that length |
| Matrices.Matrix.Copy | matrix.cpp:198 | the copy has the same entries and dimensions |
| Matrices.Matrix.Begin | matrix.cpp:21-23 | `begin()` is an iterator at (0, 0) over this matrix |
| Matrices.Matrix.End | matrix.cpp:25-27 | `end()` is an iterator at (rows, 0) over this matrix |
| Matrices.Matrix.Size | matrix.cpp:140-143 | `size()` is the pair (rows, cols), the shape of m |
| Matrices.FlattenAt | matrix.cpp:145-148 | entry (i, j) is element i * cols + j of the rows laid end to end |
| Matrices.Matrix.Get | matrix.cpp:145-148 | `operator()(i, j)` reads entry (i, j), the element of row-major index i * cols + j |
| Matrices.Matrix.Set | matrix.cpp:150-153 | writing through `operator()(i, j)` changes that one entry and keeps the shape |
| Matrices.SumAt | matrix.cpp:167-173 | the elementwise sum has the dimensions of the left operand and entries a(i, j) + b(i, j) |
| Matrices.SumComm | matrix.cpp:167-173 | the elementwise sum of equally shaped matrices is commutative |
| Matrices.Matrix.AddAssign | matrix.cpp:167-173 | `+=` sets each entry to old(i, j) + other(i, j) and keeps the dimensions; `a += a` doubles a |
| Matrices.Matrix.ScaleAssign | matrix.cpp:175-182 | scalar `*=` multiplies every entry by the scalar and keeps the dimensions |
| Matrices.Matrix.MulAssign | matrix.cpp:184-194 | matrix `*=` gives rows x other.cols entries with (i, k) the sum over j of old(i, j) * other(j, k); rows is kept and cols becomes other.cols |
| Matrices.ProductIdentity | matrix.cpp:184-194 | multiplying by the identity leaves a matrix unchanged |
| Matrices.TransposeProduct | matrix.cpp:184-194 | the transpose of a product is the product of the transposes in reverse order |
| Matrices.Matrix.Plus | matrix.cpp:196-201 | `+` returns a fresh matrix holding the sum and leaves both operands unchanged |
| Matrices.Matrix.Scaled | matrix.cpp:203-215 | either scalar `*` returns a fresh matrix holding the scaled entries |
| Matrices.Matrix.Times | matrix.cpp:217-222 | matrix `*` returns a fresh matrix holding the product |
| Matrices.Matrix.Transpose | matrix.cpp:224-233 | `transpose` swaps rows and cols and sets new(j, i) to old(i, j) |
| Matrices.TransposeTwice | matrix.cpp:224-233 | transposing twice restores the original |
| Matrices.TransposeSum | matrix.cpp:224-233 | the transpose of a sum is the sum of the transposes |
| Matrices.Matrix.Transposed | matrix.cpp:235-240 | `transposed` returns a fresh transposed copy and leaves this unchanged |
| Matrices.Iterator.constructor | matrix.cpp:65 | the iterator starts at (a, b) over the given matrix |
| Matrices.Iterator.Increment | matrix.cpp:67-74 | prefix `++` advances the column and wraps to (i + 1, 0) at cols, and returns a copy of the new position |
| Matrices.Iterator.PostIncrement | matrix.cpp:76-84 | postfix `++` makes the same step and returns a copy of the old position |
| Matrices.Iterator.Deref | matrix.cpp:86-88 | `*it` is the entry under the iterator, the element of row-major index i * cols + j |
| Matrices.Iterator.Equals | matrix.cpp:90-92 | `==` holds iff both positions agree |
| Matrices.Iterator.NotEquals | matrix.cpp:94-96 | `!=` holds iff the positions differ |
| Matrices.WalkIndex | matrix.cpp:67-74 | with cols > 0, n increments from (0, 0) reach the position of row-major index n |
| Matrices.RowMajorUnique | matrix.cpp:67-74 | a position with j < cols is determined by its row-major index |
| Matrices.Walk | matrix.cpp:21-35 | with cols > 0, n increments from `begin` reach `end` iff n == rows * cols, and before that visit entry n of the rows laid end to end |
| Matrices.WalkNoColumns | matrix.cpp:67-74 | with cols == 0 every increment moves to the next row |

## Left out

- The generic coefficient type T is fixed: `real` for both polynomial classes and `int` for
  matrices. Implicit conversions from T to a polynomial are modelled only where the code uses them,
  as the constant constructor.
- The iterator-pair polynomial constructors (`polynomial_dense.cpp:28-32`,
  `polynomial_sparse.cpp:61-65`): they are construction from a sequence, which `FromSeq` models.
- The `begin()`/`end()` accessors of both polynomial classes: the model reads the coefficient
  sequence or map directly.
- `operator<<` in all three files: text rendering through an ostream.
- `Matrix::solve` (`matrix.cpp:242-271`): Gaussian elimination over floating point.
- `shared_ptr.cpp` and `unique_ptr.cpp` are not part of this model.
- DensePolynomial.Polynomial.Quotient: a zero divisor is excluded by a precondition. In the code
  the loop condition then always holds and the code divides by a zero coefficient.
- SparsePolynomial.Polynomial.Quotient: the same precondition, for the same reason.
- DensePolynomial.Polynomial.Gcd: operands both zero are excluded. The code then reads
  `cur[-1]` as zero and divides by the zero polynomial.
- SparsePolynomial.Polynomial.Gcd: the same precondition, for the same reason.
- With int coefficients an inexact leading quotient makes the division loop spin forever. Real
  coefficients rule this out.
- Matrices.Matrix.AddAssign: other must be at least as large as this, which is what the loop
  reads. The code states no dimension check, so this is weaker than equal dimensions.
- Matrices.Matrix.MulAssign: the precondition is cols <= other.rows, which is what the loops
  read, rather than cols == other.rows.
- Matrices.Matrix.constructor: rectangular rows are not required; Valid() holds exactly when they
  are.
- const_iterator (`matrix.cpp:99-138`) has the same increment and equality code as iterator. It
  shares the Iterator class.
- Writing through `*it` is modelled by Matrices.Matrix.Set, which `operator*` reaches through
  `operator()`.
- SparsePolynomial.Polynomial.Degree: exponents and degrees are unbounded naturals. The code's
  `int Degree()` returns the `size_t` key of the last entry narrowed to `int`
  (`polynomial_sparse.cpp:112`), so a key above INT_MAX gives a wrong, negative degree. This
  matters to SparsePolynomial.Polynomial.Quotient, SparsePolynomial.Polynomial.Remainder and
  SparsePolynomial.Polynomial.Gcd, whose loop test `cur.Degree() >= other.Degree()` uses it
  (`polynomial_sparse.cpp:189-190`). For example, in the code `x^(2^31) / x` is 0 and
  `x^(2^31) % x` is `x^(2^31)`; in the model they are `x^(2^31-1)` and 0.
- SparsePolynomial.Polynomial.Quotient: follows exact degrees; the narrowing of Degree() for
  exponents above INT_MAX is not modelled.
- SparsePolynomial.Polynomial.Remainder: follows exact degrees, as Quotient does.
- SparsePolynomial.Polynomial.Gcd: follows exact degrees; with exponents above INT_MAX the code's
  loop works on narrowed degrees.
- DensePolynomial.Polynomial.Degree: `static_cast<int>(p.size()) - 1` (`polynomial_dense.cpp:75`)
  narrows for vectors of more than INT_MAX coefficients; the model's degree is unbounded.
- Iterator positions are unbounded `nat`s; `size_t` overflow of i or j is not modelled.
- Integer entries are unbounded; overflow of T in `+=` and `*=` is not modelled.
