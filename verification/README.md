# Potapov: a verified model of the exact core

The Potapov package models linear quantum networks with time delays. Its transfer
function is factored into a Blaschke–Potapov product of one factor per pole. The
package turns that product into a state-space realization (A, B, C, D) and builds a
Hamiltonian from the modes of the network. This project models, in Dafny, the parts of
that pipeline that use only exact field operations or discrete combinatorics:

- The symmetric Padé approximant of e^z (`factorial`, `pade_approx`, `Q`, `Pade`).
- Overlaps of modes:
  - the equal-frequency branch of `inner_product_of_two_modes`;
  - `_norm_of_mode`;
  - `make_normalized_inner_product_matrix`;
  - the validation, broadcasting, Δk and branch of `make_nonlinear_interaction`.
- The Potapov product: `Potapov_prod`, `prod` and `finite_transfer_function`.
- The single-pole realization `get_ABCD` and the cascade `get_Potapov_ABCD`.
- The `Hamiltonian` class:
  - the constructor and the sign patterns;
  - the keys of the weight table and the significance filter;
  - the operator words of the nonlinear and linear parts, and `make_H`.

Numbers are exact: `real` for floats and `Complex(re, im)` over `real` for complex
values. Matrices are `seq<seq<Complex>>`. A tolerance test `abs(x) < eps` is stated on
the squared magnitude (`AbsBelow`, `AbsAbove`). Python exceptions, and numpy results
that would be NaN, become `Err(..)` values of a `Result`.

Modules:

- `Results`: `Option`, `Result` and the error kinds.
- `Complexes`, `Matrices`: arithmetic.
- `Functions`: `Potapov_Code/functions.py`.
- `Potapov`: `Potapov_Code/Potapov.py`.
- `Combinatorics`: `itertools.combinations` and `combinations_with_replacement`.
- `HamiltonianModel`: `Hamiltonian.py`.

Loops in the source are methods with loop invariants, proved equal to a specification
function. The `Hamiltonian` object is a class. Its only mutable field is `H`.

## Model

| member | source | states |
|---|---|---|
| Functions.Fact | Potapov_Code/functions.py:61-74 | the product 1·2·…·n is at least 1 |
| Functions.Factorial | Potapov_Code/functions.py:71-74 | the accumulator loop returns 1 for n ≤ 0 and n·(n−1)! for n ≥ 1 |
| Functions.PadeApprox | Potapov_Code/functions.py:86-90 | the loop filling `output` by index returns the Padé numerator coefficients, entry n−k = (2n−k)!·n!/((2n)!·k!·(n−k)!) |
| Functions.PadeCoeffsLength | Potapov_Code/functions.py:86-90 | `pade_approx(n)` has n+1 entries, none for negative n |
| Functions.PadeConstantTerm | Potapov_Code/functions.py:86-90 | entry n (the constant term) is exactly 1 |
| Functions.PadeCoeffsPositive | Potapov_Code/functions.py:86-90 | every coefficient is positive |
| Functions.PadeCoeffsSmallOrders | Potapov_Code/functions.py:86-90 | orders 1 and 2 give [1/2, 1] and [1/12, 1/2, 1] |
| Functions.RatioPositive | Potapov_Code/functions.py:90 | a quotient of factorial products is positive |
| Functions.Q | Potapov_Code/functions.py:115-119 | the running sum equals Σ coeffs[i]·z^(n−i) |
| Functions.QAtZero | Potapov_Code/functions.py:115-119 | Q(0, n) = 1 |
| Functions.QConstantTerm | Potapov_Code/functions.py:115-119 | every term but the constant one vanishes when the powers of z do |
| Functions.PartialSumAtZero | Potapov_Code/functions.py:115-119 | the non-constant terms of Q sum to zero at z = 0 |
| Functions.PowOfZero | Potapov_Code/functions.py:119 | every positive power of zero is zero |
| Functions.Pade | Potapov_Code/functions.py:121-132 | the quotient is undefined exactly when Q(−z, n) = 0; otherwise it times Q(−z, n) gives Q(z, n) |
| Functions.PadeAtZero | Potapov_Code/functions.py:132 | Pade(n, 0) = 1 |
| Functions.PadeReciprocal | Potapov_Code/functions.py:132 | Pade(n, z)·Pade(n, −z) = 1 when both denominators are nonzero |
| Functions.InnerProductOfTwoModes | Potapov_Code/functions.py:166-201 | the accumulator loop over zip(delays, v1, v2) equals the overlap function, with an empty zip an error as `s[0,0]` is |
| Functions.WeightedSelfOverlap | Potapov_Code/functions.py:196-197 | the equal-frequency sum of a mode with itself is the real Σ abs(e)²·delay |
| Functions.WeightedNormSqNonnegative | Potapov_Code/functions.py:196-197 | that sum is non-negative for non-negative delays |
| Functions.SelfInnerProduct | Potapov_Code/functions.py:192-197 | with abs(func(0)) < eps, the self inner product of a mode is real, equals Σ abs(e)²·delay, and is ≥ 0 for non-negative delays |
| Functions.NormOfModeIsWeightedNorm | Potapov_Code/functions.py:203-216 | `_norm_of_mode` always takes the equal-frequency branch: sqrt of Σ abs(e)²·delay, whatever exp is |
| Functions.DefaultOverlapDefined | Potapov_Code/functions.py:254-255 | with the default cutoff and `z.imag`, an overlap fails only on an empty zip |
| Functions.NormalizedMatrix | Potapov_Code/functions.py:247-258 | the matrix is defined exactly when every root has a mode and every norm is defined; it is then dim×dim with dim = len(roots) |
| Functions.NormalizedMatrixEntries | Potapov_Code/functions.py:252-257 | entry (i, j) is the default overlap of modes i and j over sqrt(norms[i]·norms[j]) |
| Functions.EntryFromParts | Potapov_Code/functions.py:254-256 | an entry computed from a stored norm equals the specified entry |
| Functions.MatrixFromEntries | Potapov_Code/functions.py:247-258 | a dim×dim grid holding every specified entry is the specified matrix |
| Functions.Rows | Potapov_Code/functions.py:252 | the numpy grid read as rows has its shape and entries |
| Functions.FillRow | Potapov_Code/functions.py:253-257 | the inner loop writes row i with the specified entries and leaves the other rows as they were; it fails exactly when a mode is missing |
| Functions.MakeNormalizedInnerProductMatrix | Potapov_Code/functions.py:247-258 | the norms loop and the nested grid loops return the specified matrix |
| Functions.NormalizeSelf | Potapov_Code/functions.py:254-256 | a nonzero overlap divided by the root of its own square is 1 |
| Functions.NormalizedDiagonal | Potapov_Code/functions.py:247-258 | with the default extractor, diagonal entry i is 1 when mode i's self-overlap is nonzero |
| Functions.Broadcast | Potapov_Code/functions.py:321-329 | a scalar argument becomes M copies of itself |
| Functions.ScalarArgumentsBroadcast | Potapov_Code/functions.py:321-350 | a scalar delay index, start or refractive index gives the same result as M copies of it; a missing refractive index is M copies of 1 |
| Functions.PyLookup | Potapov_Code/functions.py:361 | Python indexing succeeds exactly for −n ≤ i < n, and negative indices count from the end |
| Functions.PyPosition | Potapov_Code/functions.py:336 | a valid Python index names a position inside the list |
| Functions.RegionError | Potapov_Code/functions.py:334-340 | the region check reports only a negative start, an index out of range or a region beyond its delay |
| Functions.RegionErrorIffInvalid | Potapov_Code/functions.py:334-340 | the region check passes exactly when every start is ≥ 0, every delay index is valid and start + length ≤ the delay |
| Functions.NodeValuesIffInRange | Potapov_Code/functions.py:360-361 | the node values are defined exactly when every index is valid for its mode, and are then the indexed entries |
| Functions.Negated | Potapov_Code/functions.py:362-363 | the sign list with every sign flipped |
| Functions.ModeMismatchNegated | Potapov_Code/functions.py:362-363 | flipping a sign negates that mode's n·ω·sign term |
| Functions.DeltaKNegated | Potapov_Code/functions.py:362-363 | Δk = Σ n·ω·sign changes sign when every sign does |
| Functions.PickConj | Potapov_Code/functions.py:352-358 | `pick_conj` succeeds exactly for a sign of 1 or −1 |
| Functions.PhaseProductIffSigns | Potapov_Code/functions.py:364-366 | the constant is defined exactly when every zipped sign is ±1, and fails otherwise with the sign error |
| Functions.PhaseProductAtOrigin | Potapov_Code/functions.py:364-366 | with every sign 1 and every start 0, the constant is the product of the node values |
| Functions.BranchValues | Potapov_Code/functions.py:368-371 | abs(Δk) < eps gives const·length; otherwise the result times Δk is 1j·const·(exp(−1j·Δk·length) − 1), undefined at Δk = 0 |
| Functions.InteractionValidation | Potapov_Code/functions.py:317-350 | the result is a value (or the undefined 0/0) exactly when every check passes: counts, types, regions, node indices and signs |
| Functions.InteractionValidOnLists | Potapov_Code/functions.py:334-366 | past the count, type and length checks, the result is a value or 0/0 exactly when the regions, the refractive indices, the node indices and the signs are valid |
| Functions.InteractionErrorKinds | Potapov_Code/functions.py:317-332 | the mode-count error is raised exactly when the counts differ, and the length error exactly when length < 0 after the count and type checks |
| Functions.InteractionLaterErrors | Potapov_Code/functions.py:334-371 | no check after the length check raises the count or the length error |
| Functions.InteractionReachesBranch | Potapov_Code/functions.py:360-371 | for valid arguments the node values and the constant are defined, and the result is the branch on Δk |
| Potapov.Projector | Potapov_Code/Potapov.py:67 | entry (i, j) of vec·vecᴴ is vec[i]·conj(vec[j]) |
| Potapov.ProjectorEntries | Potapov_Code/Potapov.py:67 | the matrix product of a column with its conjugate transpose is that projector |
| Potapov.Factor | Potapov_Code/Potapov.py:67 | a factor I − P + P·(z + conj p)/(z − p) is N×N |
| Potapov.FactorEntry | Potapov_Code/Potapov.py:67 | the entries of one factor |
| Potapov.Prod | Potapov_Code/Potapov.py:116-141 | `prod` is N×N and returns U unchanged when either list is empty |
| Potapov.ProdStep | Potapov_Code/Potapov.py:139-141 | a non-empty `prod` is the product of the earlier pairs times the factor for the last pair |
| Potapov.ProdIgnoresLeadingExtras | Potapov_Code/Potapov.py:134-141 | `prod` pairs its lists from the end: leading entries of the longer list are ignored |
| Potapov.ExtrasDefined | Potapov_Code/Potapov.py:134-141 | those leading entries do not affect where `prod` is defined |
| Potapov.ExtrasStep | Potapov_Code/Potapov.py:139-141 | equal products of the prefixes stay equal once the last pair's factor is applied |
| Potapov.Evaluate | Potapov_Code/Potapov.py:64-68 | the zipped product is N×N |
| Potapov.PotapovProd | Potapov_Code/Potapov.py:42-68 | the loop right-multiplies one factor per zipped pair, in list order: it equals `prod(z, I_N, ...)` on the zipped prefix and is I_N for empty lists |
| Potapov.ZipStep | Potapov_Code/Potapov.py:65-67 | one more zipped pair multiplies the product on the right by that pair's factor |
| Potapov.FiniteTransferFunction | Potapov_Code/Potapov.py:143-160 | the returned function evaluates `prod` at every z where it is defined |
| Potapov.ScalarFactor | Potapov_Code/Potapov.py:67 | for a unit scalar vector the factor is the Blaschke factor (z + conj p)/(z − p) |
| Potapov.ScalarProd | Potapov_Code/Potapov.py:134-141 | in dimension 1 with unit vectors, the product is u times the Blaschke product of the poles |
| Potapov.ScalarProdAtZero | Potapov_Code/Potapov.py:67 | at z = 0 a scalar factor equals conj(p)/(−p) |
| Potapov.ConcreteScalarPole | Potapov_Code/Potapov.py:67 | the pole −1+2j at z = 0 gives 0.6 − 0.8j |
| Potapov.BlaschkeAllPass | Potapov_Code/Potapov.py:67 | on the imaginary axis a Blaschke factor has modulus 1 |
| Potapov.BlaschkeProductAllPass | Potapov_Code/Potapov.py:134-141 | on the imaginary axis the scalar product has modulus 1 |
| Potapov.GetPotapov | Potapov_Code/Potapov.py:87-114 | the returned function is N×N wherever every factor is defined |
| Potapov.ScalarReconstructionAtZero | Potapov_Code/Potapov.py:113 | in dimension 1, T(0)·prod(0)ᴴ·prod(z) evaluated at 0 gives back T(0) |
| Potapov.GetABCD | Potapov_Code/Potapov.py:201-221 | A = val·vecᴴvec (1×1), B = −q·vecᴴ (1×N), C = q·vec (N×1), D = I_N |
| Potapov.SinglePoleEigenvalue | Potapov_Code/Potapov.py:219 | for a unit vector A is [[val]] |
| Potapov.Transfer1 | Potapov_Code/Potapov.py:219-221 | D + C(z − A)⁻¹B of a one-state realization is N×N |
| Potapov.Transfer1Entry | Potapov_Code/Potapov.py:219-221 | the entries of that transfer function |
| Potapov.RealizationEntry | Potapov_Code/Potapov.py:219-221 | with q² = −(val + conj val), a realization entry equals the factor entry |
| Potapov.RealizesFactor | Potapov_Code/Potapov.py:219-221 | a one-state system with those blocks has the Potapov factor as its transfer function |
| Potapov.SinglePoleRealization | Potapov_Code/Potapov.py:201-221 | for a unit vector and q² = −(val + conj val), `get_ABCD` realizes the factor of its pole |
| Potapov.Assemble | Potapov_Code/Potapov.py:240-253 | the block assembly of a k-state tail and a one-state head has k+1 states |
| Potapov.AssembleRowsA | Potapov_Code/Potapov.py:244-246 | A = [[A1, 0], [B2·C1, A2]] row by row |
| Potapov.AssembleRowsB | Potapov_Code/Potapov.py:247 | B = [B1; B2·D1], which is [B1; B2] when D1 = I |
| Potapov.AssembleRowsCD | Potapov_Code/Potapov.py:248-253 | C = [D2·C1, C2] and D = D2·D1 = I |
| Potapov.AssembleLastRow | Potapov_Code/Potapov.py:244-246 | the new bottom row of A is B2·C1 followed by A2 |
| Potapov.AssembleColumns | Potapov_Code/Potapov.py:248 | the columns of C are those of C1 followed by C2 |
| Potapov.StepDiagonal | Potapov_Code/Potapov.py:244-246 | one assembly step keeps the diagonal equal to the reversed poles times the squared norms |
| Potapov.StepTriangle | Potapov_Code/Potapov.py:244-246 | one assembly step keeps A lower triangular, with A[i][j] = B[i]·C[:, j] below the diagonal |
| Potapov.StepB | Potapov_Code/Potapov.py:247 | one assembly step keeps row j of B equal to −q·vecᴴ of pair k−1−j |
| Potapov.StepC | Potapov_Code/Potapov.py:248 | one assembly step keeps column j of C equal to q·vec of pair k−1−j |
| Potapov.SinglePoleCascade | Potapov_Code/Potapov.py:238-239 | a single pair is a one-state cascade |
| Potapov.CascadeStep | Potapov_Code/Potapov.py:240-253 | assembling a cascade of the later pairs with the first pair's realization is a cascade of all of them |
| Potapov.CascadeExtend | Potapov_Code/Potapov.py:240-253 | a system whose blocks are laid out as in the assembly is a cascade |
| Potapov.GetPotapovABCD | Potapov_Code/Potapov.py:223-254 | nothing exactly when a list is empty; otherwise k = min(len(poles), len(vecs)) states: A k×k, B k×N, C N×k, D N×N |
| Potapov.GetPotapovABCDCascade | Potapov_Code/Potapov.py:236-254 | A is lower triangular with diagonal poles[k−1−j]·‖vecs[k−1−j]‖², row j of B is −q·vecsᴴ[k−1−j], column j of C is q·vecs[k−1−j], and D = I_N |
| Potapov.AssembledCascade | Potapov_Code/Potapov.py:240-253 | assembling the cascade of all pairs but the first with the first pair's realization gives the cascade of all pairs |
| Potapov.RestFits | Potapov_Code/Potapov.py:241 | the recursive call on poles[1:], vecs[1:] has one pair fewer, of the same dimension |
| Combinatorics.PrependAll | Hamiltonian.py:66-67 | prefixes every tuple with one element |
| Combinatorics.CombinationsFromShape | Hamiltonian.py:66-67 | every generated tuple has length r, strictly increases and lies in range |
| Combinatorics.CombinationsFromComplete | Hamiltonian.py:66-67 | every such tuple is generated |
| Combinatorics.CombinationsFromDistinct | Hamiltonian.py:66-67 | no tuple is generated twice |
| Combinatorics.CombinationsFromCount | Hamiltonian.py:66-67 | the number of tuples is C(n − lo, r) |
| Combinatorics.BinomOverfull | Hamiltonian.py:66-67 | C(n, r) = 0 for r > n |
| Combinatorics.Enumerated | Hamiltonian.py:66-67 | `combinations(range(n), r)` lists exactly the increasing r-tuples over range(n), once each, C(n, r) of them, none when r > n, each before the next in lexicographic order |
| Combinatorics.CombinationsWithReplacementFromShape | Hamiltonian.py:108-109 | every generated tuple has length r, does not decrease and lies in range |
| Combinatorics.CombinationsWithReplacementFromComplete | Hamiltonian.py:108-109 | every such tuple is generated |
| Combinatorics.CombinationsWithReplacementFromDistinct | Hamiltonian.py:108-109 | no tuple is generated twice |
| Combinatorics.EnumeratedWithReplacement | Hamiltonian.py:108-109 | `combinations_with_replacement(range(m), r)` lists exactly the non-decreasing r-tuples over range(m), once each |
| HamiltonianModel.Annihilators | Hamiltonian.py:34 | `a` holds the m annihilation operators in order |
| HamiltonianModel.Creators | Hamiltonian.py:35 | `a_H` holds the m creation operators in order |
| HamiltonianModel.Hamiltonian.constructor | Hamiltonian.py:20-37 | every argument is stored, with the defaults refraction 1., chi_order 3, photons_annihilated 2 and nonlin_coeff 1; m = len(roots), a and a_H have m operators each, and H is None |
| HamiltonianModel.PmArrs | Hamiltonian.py:69-73 | one sign pattern per index tuple, in order |
| HamiltonianModel.NegativePositionsSpec | Hamiltonian.py:70-72 | the positions of −1 in a pattern are increasing, in range, and as many as its −1 entries |
| HamiltonianModel.SortedUnique | Hamiltonian.py:66-73 | two increasing tuples with the same elements are equal |
| HamiltonianModel.PmArrPositions | Hamiltonian.py:70-72 | the −1 positions of the pattern built from a tuple are that tuple |
| HamiltonianModel.SignCounts | Hamiltonian.py:70-72 | a ±1 list has as many entries as its +1s and −1s together |
| HamiltonianModel.PmArrListSound | Hamiltonian.py:66-73 | every pattern has length chi_order+1, entries ±1 and exactly photons_annihilated entries of −1 |
| HamiltonianModel.PmArrListComplete | Hamiltonian.py:62-67 | every such pattern is listed |
| HamiltonianModel.PmArrListDistinct | Hamiltonian.py:62-67 | no pattern is listed twice |
| HamiltonianModel.PmArrList | Hamiltonian.py:59-74 | the list is exactly the ±1 patterns with photons_annihilated −1s, each once, C(chi_order+1, photons_annihilated) of them, none when too many are annihilated |
| HamiltonianModel.Hamiltonian.SignPattern | Hamiltonian.py:70-72 | the inner loop writes −1 at exactly the positions of the tuple and 1 elsewhere |
| Combinatorics.CombinationsFromLexSorted | Hamiltonian.py:66-67 | `combinations(range(lo, n), r)` lists its tuples in strictly increasing lexicographic order, the order `itertools` emits |
| HamiltonianModel.Hamiltonian.MakeListOfPmArr | Hamiltonian.py:66-74 | the loop returns one pattern per combination of chi_order+1 positions taken photons_annihilated at a time, in the lexicographic order of `Combinations` |
| HamiltonianModel.Hamiltonian.NonlinWordSpec | Hamiltonian.py:51-57 | the word is defined exactly when every zipped index is valid; it then holds a_H[index] for sign 1 and a[index] otherwise, in order |
| HamiltonianModel.Hamiltonian.NonlinTermInRange | Hamiltonian.py:51-57 | for in-range indices the term is 1 times the ordered operator word |
| HamiltonianModel.Word | Hamiltonian.py:52 | a word has one operator per zipped pair |
| HamiltonianModel.Hamiltonian.MakeWeights | Hamiltonian.py:94-112 | the table has exactly one key per (non-decreasing (chi_order+1)-tuple over range(m), sign pattern), holding its weight |
| HamiltonianModel.NonlinTerms | Hamiltonian.py:127-129 | one term per significant key |
| HamiltonianModel.Hamiltonian.MakeNonlinH | Hamiltonian.py:114-130 | it keeps exactly the keys whose weight has abs > eps (default 1e-5), each once, and sums their terms |
| HamiltonianModel.ScaleExpr | Hamiltonian.py:159 | `H_nonlin * nonlin_coeff` multiplies every term's coefficient by nonlin_coeff and keeps its word |
| HamiltonianModel.LinRow | Hamiltonian.py:142-143 | one row of the linear part has one term per column |
| HamiltonianModel.LinRowsLength | Hamiltonian.py:140-144 | the first r rows contribute r·m terms |
| HamiltonianModel.LinRowsAt | Hamiltonian.py:140-144 | term i·m + j of those rows is Omega[i, j]·a_H[i]·a[j] |
| HamiltonianModel.LinTermsAt | Hamiltonian.py:140-144 | the linear part has m² terms and term i·m + j is Omega[i, j]·a_H[i]·a[j] |
| HamiltonianModel.Hamiltonian.MakeLinH | Hamiltonian.py:132-144 | the nested loops return one term Omega[i, j]·a_H[i]·a[j] per (i, j); an Omega smaller than m×m is an index error |
| HamiltonianModel.Hamiltonian.MakeH | Hamiltonian.py:146-160 | H = H_lin + H_nonlin·nonlin_coeff over the keys significant at eps (default 1e-5), stored in `H`; on an index error `H` is unchanged |

## Left out

- `der`, `limit`, `spatial_modes` and `pade_roots` (functions.py): floating-point finite differences, contour averaging, eigen-decomposition and polynomial root finding.
- `get_Potapov_vecs`, `normalize`, `estimate_D` and `plot` (Potapov.py): they need a matrix inverse, eigenvectors, vector norms or matplotlib.
- `get_Potapov_ABCD` with a reference `T, z`: that path calls `estimate_D`. Only the path without them (D = D2·D1) is modelled.
- The message `get_Potapov_ABCD` prints on empty input is not modelled. The model returns `None`, as the function does.
- `make_sp_conj` and `make_eq_motion` (Hamiltonian.py): sympy conjugation, differentiation and `lambdify`.
- `Hamiltonian.weight`: it only delegates to `make_nonlinear_interaction`. It is an opaque total parameter `weight` of `MakeWeights`, `MakeNonlinH` and `MakeH`, so an exception it would raise is not propagated.
- `exp`, `sqrt` and the frequency extractor `func` are foreign numerics. They are function parameters; properties that need `sqrt(x)² = x` take it as a hypothesis.
- `Functions.InnerProductOfTwoModes`: the branch where the frequencies differ is kept with `exp` uninterpreted, so nothing beyond its formula is proved about it.
- Floats are exact reals: rounding, overflow and NaN are not modelled. A division by zero numpy would turn into NaN or inf is `Err(Undefined)` in the overlap and the interaction, and `None` in an entry of the normalized matrix.
- `factorial` uses Python's unbounded integers, which the model follows exactly.
- Functions.PadeApprox: each coefficient is exact, whereas `pade_approx` converts the factorials to `float`. It therefore rounds every coefficient, and for n ≥ 65 the conversion of (2n)!·n! raises OverflowError. Neither is modelled, so `Functions.Q` and `Functions.Pade` are exact for every n and never raise that error.
- Potapov.Prod, Potapov.Evaluate, Potapov.PotapovProd, Potapov.FiniteTransferFunction, Potapov.GetPotapov and Potapov.GetPotapovABCD require every eigenvector to have the dimension N of the product. Inputs with mismatched dimensions are excluded: numpy either broadcasts a 1×1 `vec*vec.H` against `np.eye(N)` or raises ValueError in `np.eye(N) - Pi`, `np.vstack` or `np.hstack`. The package's own callers always pass N×1 vectors.
- Sympy expressions are formal sums of `Term(coeff, word)`. Like terms are not collected, the `0.` that starts each sum is dropped, and words keep the order of multiplication although sympy's symbols commute.
- `make_nonlin_H` iterates a dict in an order Python does not fix. The order is exposed as the `keys` out-parameter, with only its contents and distinctness specified.
- Python 2 type checks (`type(x) in [int, float]`, `isinstance(x, list)`) are modelled by the argument datatypes `IndexArg`, `StartArg` and `RefractionArg`. An ill-typed element inside a list is not modelled.
- `chi_order` and `photons_annihilated` are natural numbers. A negative value, for which `itertools` raises, is not modelled.
- setup.py: packaging only.

## Notes on the source

- `make_nonlinear_interaction` checks the regions (lines 334-340) before it checks the type of `indices_of_refraction` (lines 342-350). The model keeps that order, so a bad region is reported before a bad refractive index.
- Delay and mode indices follow Python: a negative index counts from the end of the list.
- `make_normalized_inner_product_matrix` computes the norms with the caller's `eps` and `func`, but the entries with the defaults (`eps = 1e-7`, `z.imag`). The model does the same.
