# Local Smith form over Z/2^E by sparse elimination

A Dafny model of LinBox's `PowerGaussDomainPowerOfTwo`
(`linbox/algorithms/smith-form-sparseelim-poweroftwo.h`). Given a sparse
integer matrix and an exponent E, it computes the local Smith form modulo
2^E. The algorithm is a sparse Gaussian elimination over Z/2^e.

- Pivots are odd coefficients, the only units modulo 2^e. They are inverted
  by Newton–Raphson doubling (`MY_Zpz_inv`).
- The remaining rows are visited by increasing size.
- A pivot is moved to the head of its row and relabelled with the next pivot
  column. The same column swap is applied to every row below, which is then
  eliminated with `FaireElimination`.
- When no remaining row holds an odd coefficient, the rank modulo the current
  power of two is recorded and every remaining row is divided by two.

The sequence of ranks modulo 2, 4, ..., 2^E gives the invariant factors as
(multiplicity, power of two) pairs. The project also models `distinct` from
`linbox/solutions/smith-form.h`, which run-length encodes a diagonal.

Modules, in dependency order:

| module | file | models |
|---|---|---|
| `Arith` | `arith.dfy` | powers of two, Euclidean remainder, congruences |
| `ModularInverse` | `modular_inverse.dfy` | `MY_Zpz_inv`, and the elimination factor `headcoeff` |
| `SparseRow` | `sparse_row.dfy` | sparse rows as sorted `(column, coefficient)` entries, the sparse-vector view `Coeff`, column densities |
| `PivotSearch` | `pivot_search.dfy` | `isOdd`, `SameColumnPivoting`, both `CherchePivot` overloads |
| `Elimination` | `elimination.dfy` | `FaireElimination`, `PreserveUpperMatrixRow` |
| `RowStrategy` | `row_strategy.dfy` | the size-ordered row visit (`psizes`), `SameColumnPivotingTrait`, and the density pass of `gauss_rankin` |
| `RankDriver` | `rank_driver.dfy` | `gauss_rankin`, `prime_power_rankin` |
| `SmithOutput` | `smith_output.dfy` | `operator()` |
| `RunLength` | `run_length.dfy` | `distinct` |

Matrices, coefficients and word arithmetic are represented as follows:

- Coefficients are natural numbers reduced modulo `Pow2(e)`. Every
  `& (2^e - 1)` in the source is written as `% Pow2(e)`.
- A row is a `seq<Entry>`. The column-density table is a `map<nat, int>`
  that defaults to 0. It is signed, because the source reads its `size_t`
  counters through a `(long)` cast.
- The policy bits of `StaticParameters` are modelled as a `set<Flag>`.
- The contracts of the elimination speak about rows as vectors:
  - `Coeff(row, c)` is the coefficient a row holds in column c.
  - `SwapsColumns` states a column exchange.
  - `Combines(x, a, b, hc, m)` states `x == (a + hc * b) mod m`.

## Model

| member | source | states |
|---|---|---|
| ModularInverse.ZpzInv | linbox/algorithms/smith-form-sparseelim-poweroftwo.h:95-111 | for every odd a below 2^e the result is a true inverse: a*u ≡ 1 mod 2^e; the inverse of 1 is 1 |
| ModularInverse.NewtonLoopInverts | linbox/algorithms/smith-form-sparseelim-poweroftwo.h:103-109 | the doubling loop keeps xmone ≡ (a-1)^(i/2) and a*u ≡ 1-(a-1)^i; on exit (i ≥ e) the even power vanishes, so u inverts a |
| ModularInverse.ZpzInvAsWritten | linbox/algorithms/smith-form-sparseelim-poweroftwo.h:95-111 | the routine with `ttep2` frozen at the first call's mask: for e ≤ 2 the loop is skipped and the seed comes back unmasked, for e > 2 the result is a residue below 2^e; inverting 1 still gives 1 |
| ModularInverse.AsWrittenInvertsAfterLargerFirstCall | linbox/algorithms/smith-form-sparseelim-poweroftwo.h:96-101 | if the first call used an exponent at least as large as the current one, the frozen seed is still 2-a mod 2^e and the result is a true inverse |
| ModularInverse.StaticSeedCounterexample | linbox/algorithms/smith-form-sparseelim-poweroftwo.h:96-101 | after a first call modulo 4, inverting 3 modulo 8 returns 7 and 3*7 ≡ 5, whereas the true inverse is 3 |
| ModularInverse.UnmaskedSmallExponent | linbox/algorithms/smith-form-sparseelim-poweroftwo.h:101-110 | after a first call with mask 31, inverting 3 modulo 4 returns the unmasked 31, still an inverse modulo 4 |
| ModularInverse.AsWrittenAgreesAfterLargerFirstCall | linbox/algorithms/smith-form-sparseelim-poweroftwo.h:95-111 | if the first call used an exponent at least as large as the current one, the routine as written agrees with ZpzInv modulo 2^e, and exactly once the loop runs (e > 2) |
| ModularInverse.HeadCoeff | linbox/algorithms/smith-form-sparseelim-poweroftwo.h:309-316 | the factor hc, built with the corrected inverse ZpzInv, lies below 2^e and cancels the target head against the odd pivot: h + hc*pivot ≡ 0 mod 2^e |
| ModularInverse.HeadCoeffAsWritten | linbox/algorithms/smith-form-sparseelim-poweroftwo.h:309-316 | headcoeff computed with the routine as written, after a first call at an exponent at least e, equals HeadCoeff, so the elimination built on HeadCoeff is the source's under that condition |
| PivotSearch.SameColumnPivoting | linbox/algorithms/smith-form-sparseelim-poweroftwo.h:149-161 | with the policy on, a row whose head lies in column indcol with an odd coefficient is chosen in place: the column is consumed and indpermut = indcol; otherwise nothing changes |
| PivotSearch.CherchePivotHead | linbox/algorithms/smith-form-sparseelim-poweroftwo.h:184-195 | an empty row gives -1; otherwise the head is relabelled to indcol, and on a sorted row the result is the original row with columns indcol and head.col exchanged |
| PivotSearch.FirstOdd | linbox/algorithms/smith-form-sparseelim-poweroftwo.h:205-207 | the index returned is the first odd coefficient at or after j, and every coefficient skipped is even |
| PivotSearch.Sparsest | linbox/algorithms/smith-form-sparseelim-poweroftwo.h:210-217 | the scan returns the odd entry of least column density, the first one among ties (IsSparsestOdd) |
| PivotSearch.SparsestUnique | linbox/algorithms/smith-form-sparseelim-poweroftwo.h:210-217 | the sparsest-odd choice is unique, so the reference definition determines the pivot |
| PivotSearch.CherchePivot | linbox/algorithms/smith-form-sparseelim-poweroftwo.h:199-244 | -1 for an empty row and -2 (row and densities unchanged) when no coefficient is odd. Otherwise the pivot is the sparsest odd entry: it moves to the head as column indcol, the coefficients are a permutation of the old ones, and a sorted row becomes the old vector with columns indcol and indpermut exchanged. The densities drop by the row's column counts |
| PivotSearch.PivotPlacement | linbox/algorithms/smith-form-sparseelim-poweroftwo.h:218-232 | all three placements (relabel, exchange with the head, rotate to the front) put Entry(indcol, pivot) first, keep the coefficient multiset, and realise the column swap on sorted rows |
| Elimination.FirstFrom | linbox/algorithms/smith-form-sparseelim-poweroftwo.h:271-272 | the scan stops at the first entry whose column is at least c, and every entry skipped has a smaller column |
| Elimination.Merge | linbox/algorithms/smith-form-sparseelim-poweroftwo.h:326-359 | the merged tail, as a vector, is target + hc*pivot mod 2^e in every column; it stays sorted and reduced (zero sums are dropped), and the density table changes exactly by the column counts gained and lost |
| Elimination.EliminateHead | linbox/algorithms/smith-form-sparseelim-poweroftwo.h:298-362 | when the target's head lies in the pivot column, the result is target + hc*pivot with column k cleared, and it is active from k+1 |
| Elimination.PermuteColumns | linbox/algorithms/smith-form-sparseelim-poweroftwo.h:277-295 | the target row with columns k and the pivot's original column exchanged; coefficients and density balance are kept |
| Elimination.SwapUnmatched | linbox/algorithms/smith-form-sparseelim-poweroftwo.h:364-382 | a target without the pivot's original column only undergoes the column swap (an entry in column k moves to column indpermut), which equals the elimination with head 0 |
| Elimination.FaireElimination | linbox/algorithms/smith-form-sparseelim-poweroftwo.h:255-384 | for every column c, the new target equals (swapped target)[c] + hc*pivot[c] mod 2^e, with hc from HeadCoeff; the result is active from the next pivot column, an untouched row is returned unchanged, and density minus count is invariant |
| Elimination.PreserveUpperMatrixRow | linbox/algorithms/smith-form-sparseelim-poweroftwo.h:246-252 | with PreserveUpperMatrix the pivot row is kept, otherwise it is released (empty) |
| RowStrategy.SizeOrder | linbox/algorithms/smith-form-sparseelim-poweroftwo.h:454-456 | the visiting order is a permutation of rows k..n-1 sorted by (size, index), as the multimap gives |
| RowStrategy.InsertSorted | linbox/algorithms/smith-form-sparseelim-poweroftwo.h:456 | inserting a row into a size-ordered sequence keeps it size-ordered |
| RowStrategy.SameColumnPass | linbox/algorithms/smith-form-sparseelim-poweroftwo.h:163-182 | the pass fails iff no remaining row has an odd head in column indcol; otherwise it picks the first such row in visiting order and leaves the rows unchanged |
| RowStrategy.DensityPass | linbox/algorithms/smith-form-sparseelim-poweroftwo.h:472-477 | the pass fails iff every remaining row is non-empty with only even coefficients; otherwise the first row in order that is empty (-1) or has an odd entry is chosen, and only that row changes |
| RowStrategy.TrySelect | linbox/algorithms/smith-form-sparseelim-poweroftwo.h:469-477 | the policy pass first when enabled, then the density pass; no pivot iff every remaining row is non-empty and even |
| RankDriver.MaskRowView | linbox/algorithms/smith-form-sparseelim-poweroftwo.h:415-432 | the masked row is sorted and, as a vector, is the input row reduced modulo 2^E |
| RankDriver.MaskRowEmpty | linbox/algorithms/smith-form-sparseelim-poweroftwo.h:419-429 | the masked row is empty iff every input value vanishes modulo 2^E |
| RankDriver.MaskRowEven | linbox/algorithms/smith-form-sparseelim-poweroftwo.h:419-429 | the masked row has no odd coefficient iff every residue of the input row is even |
| RankDriver.InitialPass | linbox/algorithms/smith-form-sparseelim-poweroftwo.h:413-432 | each row is masked modulo 2^E, and the density of every column is its total count over all rows |
| RankDriver.HalveRow | linbox/algorithms/smith-form-sparseelim-poweroftwo.h:480-482 | halving keeps the columns, and on an all-even row doubling the result gives back the row, entry by entry and as a vector |
| RankDriver.HalveUntilPivot | linbox/algorithms/smith-form-sparseelim-poweroftwo.h:451-497 | halves the remaining rows until one has a pivot, recording one rank per halving; halved rows times 2^(e-e') are the originals; no halving happens unless no pivot existed |
| RankDriver.EliminateBelow | linbox/algorithms/smith-form-sparseelim-poweroftwo.h:510-512 | every row below k is eliminated against the pivot (Eliminated) and stays active from the next column; rows up to k are unchanged |
| RankDriver.ChoosePivot | linbox/algorithms/smith-form-sparseelim-poweroftwo.h:469-505 | the chosen row is swapped to position k; a pivot (c ≥ 0) has an odd head in column indcol and is the chosen row with columns exchanged; -1 only for an empty row |
| RankDriver.PlacePivot | linbox/algorithms/smith-form-sparseelim-poweroftwo.h:498-522 | after the swap, every row below is eliminated against the pivot, the pivot row is preserved or released by policy (row k is PreserveUpperMatrixRow of the pivot), and the rows stay active |
| RankDriver.PivotStep | linbox/algorithms/smith-form-sparseelim-poweroftwo.h:446-523 | one step of the k loop: the exponent drops only when no remaining row had an odd coefficient; ranks are recorded per drop; a column is consumed or an odd or non-empty row remains |
| RankDriver.LastSearch | linbox/algorithms/smith-form-sparseelim-poweroftwo.h:525-527 | the search on the last row places an odd head in column indcol when the row has an odd coefficient |
| RankDriver.LastRow | linbox/algorithms/smith-form-sparseelim-poweroftwo.h:525-534 | an empty last row consumes nothing and leaves c = -1; a non-empty one ends with an odd head in column indcol and equals the input divided by 2^(t-t') with columns indcol and c exchanged, where t' < t (one rank indcol recorded per halving) exactly when the input was all even |
| RankDriver.HalveLastRow | linbox/algorithms/smith-form-sparseelim-poweroftwo.h:528-534 | halving a non-empty even last row stops before the exponent reaches 1, at a row with an odd head in column indcol that is the input divided by 2^(t-t') with columns indcol and c (c >= indcol) exchanged; one rank indcol is recorded per halving |
| RankDriver.DoubleRowHalved | linbox/algorithms/smith-form-sparseelim-poweroftwo.h:530-531 | on an all-even row, doubling every coefficient of the shifted row gives back the row scaled as before: the shift loses no bit |
| RankDriver.EliminationLoop | linbox/algorithms/smith-form-sparseelim-poweroftwo.h:446-523 | after rows 0..n-2, the ranks so far are consistent, the exponent drops only for an even matrix, the last row is active, and with PreserveUpperMatrix the upper rows form a staircase |
| RankDriver.GaussRankin | linbox/algorithms/smith-form-sparseelim-poweroftwo.h:390-551 | E ranks, non-decreasing and bounded by the row count; the rank mod 2 is 0 iff every entry is even, and the rank mod 2^E is 0 iff every entry vanishes mod 2^E; with PreserveUpperMatrix the kept pivot rows form a staircase whose non-empty rows number the last rank; without it every upper row is released |
| RankDriver.PrimePowerRankin | linbox/algorithms/smith-form-sparseelim-poweroftwo.h:554-569 | dispatches on the two policy flags; inherits every GaussRankin guarantee |
| SmithOutput.FactorsFrom | linbox/algorithms/smith-form-sparseelim-poweroftwo.h:577-585 | factors have positive multiplicities and strictly increasing powers 2^j..2^(E-1); 2^j appears first iff the rank grows at step j |
| SmithOutput.SmithFactors | linbox/algorithms/smith-form-sparseelim-poweroftwo.h:572-586 | the factor list is canonical: positive multiplicities, strictly increasing powers of two below 2^E |
| SmithOutput.FactorsFromCount | linbox/algorithms/smith-form-sparseelim-poweroftwo.h:577-585 | the multiplicities of factors up to 2^i add up to the rank growth ranks[i] - num |
| SmithOutput.SmithFactorsRoundTrip | linbox/algorithms/smith-form-sparseelim-poweroftwo.h:577-585 | the ranks are recovered from the factor list (partial multiplicity sums), so the encoding loses nothing |
| SmithOutput.SmithFactorsEnds | linbox/algorithms/smith-form-sparseelim-poweroftwo.h:577-585 | no factors iff the last rank is 0; the factor 1 appears iff the rank mod 2 is positive |
| SmithOutput.SmithFormPowerOfTwo | linbox/algorithms/smith-form-sparseelim-poweroftwo.h:572-587 | the output factor list is canonical, decodes back to the computed ranks, is empty iff the matrix vanishes mod 2^E, and starts with 1 iff some entry is odd |
| RunLength.Distinct | linbox/solutions/smith-form.h:43-61 | appends runs to c, leaving c's prefix intact; the runs expand back to the input, are maximal (adjacent values differ, counts positive), and nothing is appended for an empty range |
| RunLength.RunsUnique | linbox/solutions/smith-form.h:43-61 | maximal runs with the same expansion are equal, so Distinct's output is the unique run-length encoding |

## Left out

- Commentator progress reports, timing and debug output (`#ifdef` blocks): I/O only.
- The `smithForm` overloads and the rest of `linbox/solutions/smith-form.h`: they dispatch to other domains, which are not part of this model.
- The commented-out Euclidean `MY_Zpz_inv` variant: it is dead code.
- Word width. `UInt_t` and `size_t` products are modelled as unbounded integers reduced modulo 2^e. The model assumes 2^E fits the word, and does not model `MOD <<= 1` overflowing for E at or above the word width.
- SmithOutput.SmithFactors requires non-decreasing ranks (which GaussRankin guarantees), so the `size_t` wrap of `diff = *it - num` on a decreasing sequence is not modelled.
- The `Nj` argument is unused by the elimination and is left out. The index range of the density vector is not modelled: the density table is an unbounded map.
- The numeric values of the `StaticParameters` bits are left out. The two policies are modelled as the flags of a `set<Flag>`.
- The density table is modelled only through the invariant "density minus column count"; its absolute values after many updates (which can wrap below zero in the source) are not constrained further.
- Elimination.FaireElimination requires a pivot row with an odd, reduced head in column indcol-1, as every call site in `gauss_rankin` provides; other pivots are never passed.
- ModularInverse.HeadCoeff uses the corrected inverse ZpzInv, not the routine as written with its frozen `ttep2`. So the elimination, and everything built on it, models the source exactly only when the first `MY_Zpz_inv` call of the process used an exponent at least as large as every later one (ModularInverse.HeadCoeffAsWritten). That holds throughout the first elimination a process runs. A later elimination at a larger exponent can, in the source, compute a headcoeff that does not cancel the head (see Findings); the model does not follow that failure.
- RankDriver.GaussRankin requires at least one row, because `last = Ni - 1` underflows for Ni = 0.
- RankDriver.GaussRankin does not prove that each rank equals the rank of the matrix modulo 2^(j+1). It proves the length, monotonicity and bounds, the first and last ranks (as if-and-only-if statements on the input), and the staircase shape. The full equality would need a model of module rank over Z/2^e.
- For a matrix that vanishes modulo 2^E, the code records E zero ranks and `operator()` returns no factors. The model follows this code behaviour.
- RankDriver.HalveUntilPivot and RankDriver.LastRow state the halving relation (the input is the result times 2^s, for LastRow after exchanging columns indcol and c) but not the rank values beyond their index bookkeeping.

## Findings

| source | as written | input that shows it | evidently intended | confidence | as-written member | corrected member |
|---|---|---|---|---|---|---|
| linbox/algorithms/smith-form-sparseelim-poweroftwo.h:96-101 | the local constant `ttep2` (mask + 3) is `static`, so it is initialised from the mask of the first call only, and every later call seeds with `ttep2 - a` | a first call with exponent 2 (mask 3) freezes ttep2 = 6; a later call inverting a = 3 modulo 2^3 seeds with 3, returns 7, and 3*7 ≡ 5 (mod 8) | the seed 2 - a modulo the current 2^e, which gives the true inverse 3 | medium; not executed (within one elimination the exponent only decreases, so only calls across eliminations with a larger exponent are affected) | ModularInverse.StaticSeedCounterexample | ModularInverse.ZpzInv |
