# Combinatorial test generation: a Dafny model

This project models the computational core of a combinatorial-testing engine.
The engine builds covering arrays for t-way testing under constraints.
The model covers five layers.

- **Combinatorics (`ALG`).**
  - Binomial coefficients.
  - Ranking and unranking of m-subsets in lexicographic order, and the recursive enumeration of all of them.
  - Mixed-radix ranking of value tuples and the odometer enumeration.
  - The three in-place quicksorts.
  - Two linear searches.
- **Coverage matrix (`BArray`).** A ragged boolean matrix with a pool of candidate false cells. The pool is evicted lazily, by swapping with the last live cell.
- **Constraint layer (`Constraint`, `ValidityChecker`, `ConflictCounter`).**
  - A constraint is a forbidden tuple written as negative global-id literals.
  - The layer has the superiority test and minimisation.
  - It computes the minimum forbidden tuples by Cartesian merging over implicit parameters.
  - It has the two-pointer match that decides validity and counts violated tuples.
- **Test model (`CTModel`).**
  - The global id mapping and the literal encoding.
  - The coverage matrix of t-way combinations.
  - The counters `combRaw`, `combAll` and `combUncovered`.
  - `covered`, `fitness` and `fitnessValue`.
  - The removal and lazy sampling of invalid combinations.
- **Simulated annealing (`SA`), integer part.**
  - The size bounds and the outer search over suite sizes.
  - The occupancy table `cover` with its add/remove accounting.
  - The inner search, whose invariant is that `uncoverNum` is the number of zero cells of `cover`.
  - Because of that invariant, a suite the search returns hits every valid t-way combination, and under hard constraints every test is valid.

Java arrays and mutable objects become immutable sequences and datatypes.
A method that mutates its receiver returns the new value.
Nullable results become `Option`.
A helper that throws an index exception on some inputs returns `Exceptional`, whose `Throws` case stands for that exception.
Every `java.util.Random` draw is read from a stream `rand: nat -> nat` and reduced modulo the bound.
The acceptance of a worsening move (`nextDouble() < e^(delta/T)`) is an arbitrary boolean `accept(round)`.

Two source defects are modelled twice, as written and corrected; see "## Findings".
The rest of the model uses the corrected versions.

`removeInvalidCombinations` (`CTModel.java` lines 208-211) calls `covered(pos, sch, 1)` on every invalid combination.
That call marks the cell true and lowers `combUncovered`.
`combAll` drops only for cells that were still false.

## Model

| member | source | states |
|---|---|---|
| Binomial.Combine | src/main/java/com/neo/common/ALG.java:17-25 | The multiply-then-divide loop returns the binomial coefficient C(n, m) for every n and m. That is 1 for m = 0, 0 when n < m, and 1 for m = n. |
| Binomial.BinomAbsorption | src/main/java/com/neo/common/ALG.java:17-25 | x·C(n, x) = (n − x + 1)·C(n, x − 1). This is why every intermediate division of `combine` is exact. |
| Binomial.BinomAbove | src/main/java/com/neo/common/ALG.java:19-23 | C(n, k) = 0 whenever n < k. `combine2num` relies on this when fewer parameters remain than are still to be chosen. |
| Binomial.CalFactorial | src/main/java/com/neo/common/ALG.java:214-219 | The result is 1 for t ≤ 1 and t! for every t ≥ 0. |
| Binomial.BinomFactorial | src/main/java/com/neo/common/ALG.java:214-219 | C(n, k)·k!·(n − k)! = n!. This ties the factorial to the binomial coefficient. |
| Subsets.EnumLength | src/main/java/com/neo/common/ALG.java:86-110 | The lexicographic list of k-subsets of [lo, n) has C(n − lo, k) members. |
| Subsets.EnumMembers | src/main/java/com/neo/common/ALG.java:86-110 | Every member of that list has k elements, strictly ascending, inside [lo, n). |
| Subsets.EnumSorted | src/main/java/com/neo/common/ALG.java:86-110 | The list is strictly increasing in lexicographic order, so no subset appears twice. |
| Subsets.RankBound | src/main/java/com/neo/common/ALG.java:54-60 | The rank of an ascending subset is below C(n − lo, \|c\|). |
| Subsets.RankIndexesEnum | src/main/java/com/neo/common/ALG.java:54-60 | The rank of a subset is its position in the lexicographic list. |
| Subsets.RankOfUnrank | src/main/java/com/neo/common/ALG.java:74-84 | Unranking any r below C(n − lo, k) gives an ascending k-subset whose rank is r. |
| Subsets.UnrankOfRank | src/main/java/com/neo/common/ALG.java:54-60 | Unranking the rank of an ascending subset gives the subset back. |
| Subsets.RankClosedForm | src/main/java/com/neo/common/ALG.java:54-60 | The lexicographic rank equals `combine2num`'s formula C(n, m) − 1 − Σ C(n − c[i] − 1, m − i). |
| Subsets.Combine2Num | src/main/java/com/neo/common/ALG.java:54-60 | For an ascending m-subset of {0..n−1}, the result lies in [0, C(n, m)) and is the index of the subset in the lexicographic list. |
| Subsets.Num2Combine | src/main/java/com/neo/common/ALG.java:74-84 | For 0 ≤ t < C(n, m), the result is an ascending m-subset of {0..n−1} whose rank is t. |
| Subsets.DfsIsEnum | src/main/java/com/neo/common/ALG.java:100-110 | The recursive `dfs` emits the prefix followed by every subset of the remaining range, in lexicographic order. |
| Subsets.AllCombinationSpec | src/main/java/com/neo/common/ALG.java:94-98 | `allCombination(n, m)` has exactly C(n, m) ascending m-subsets. They are strictly increasing lexicographically, and element i is `num2combine(i)` and has rank i. |
| Subsets.DocRankExample | src/main/java/com/neo/common/ALG.java:46-47 | The documented example: `combine2num({1, 2}, 4, 2)` = 3. |
| Subsets.DocUnrankExample | src/main/java/com/neo/common/ALG.java:66-67 | The documented example: `num2combine(2, 4, 2)` = {0, 3}. |
| MixedRadix.CombineValue | src/main/java/com/neo/common/ALG.java:35-40 | The result is the product of the domain sizes of the chosen parameters. It is positive when every domain is non-empty. |
| MixedRadix.Val2Num | src/main/java/com/neo/common/ALG.java:126-134 | The result is the mixed-radix rank of the schema, first position most significant. For in-range digits it lies in [0, `combineValue`). |
| MixedRadix.Num2Val | src/main/java/com/neo/common/ALG.java:148-162 | For i in [0, `combineValue`), the result has in-range digits and its rank is i. |
| MixedRadix.RankBounds | src/main/java/com/neo/common/ALG.java:126-134 | The rank of in-range digits lies in [0, product of the radices). |
| MixedRadix.UnrankOfRank | src/main/java/com/neo/common/ALG.java:148-162 | Unranking the rank of in-range digits gives the digits back, so `num2val` inverts `val2num`. |
| MixedRadix.RankOfUnrank | src/main/java/com/neo/common/ALG.java:148-162 | Unranking an index in range gives in-range digits whose rank is that index. |
| MixedRadix.RankBijection | src/main/java/com/neo/common/ALG.java:112-162 | Rank is injective on in-range digits, and unrank is injective on indices in range. |
| MixedRadix.ProdSign | src/main/java/com/neo/common/ALG.java:35-40 | Over non-negative domain sizes, the product `combineValue` is positive exactly when every chosen domain is non-empty, and 0 otherwise. |
| MixedRadix.AllV | src/main/java/com/neo/common/ALG.java:175-206 | The odometer returns `combineValue` rows, and row i is `num2val(i)`. For t = 0 it returns a single empty row. When a chosen domain has size 0 it returns no rows. |
| MixedRadix.Advance | src/main/java/com/neo/common/ALG.java:195-203 | One odometer step, carries included, raises the rank of the counter by exactly 1. |
| MixedRadix.CarryKeepsRank | src/main/java/com/neo/common/ALG.java:197-200 | A carry resets an overflowing digit to 0 and bumps the next one. It leaves the rank unchanged. |
| MixedRadix.DocExamples | src/main/java/com/neo/common/ALG.java:116-140 | The documented examples: `val2num` of {1, 2} is 5, and `num2val(4)` is {1, 1}, for domains of size 3. |
| QuickSort.Partition | src/main/java/com/neo/common/ALG.java:273-294 | The hole partition puts the pivot at p. Everything before p goes no later than it and everything after goes no earlier. Cells outside the range are untouched, and the range is permuted. |
| QuickSort.QuickSort | src/main/java/com/neo/common/ALG.java:273-297 | The range ends sorted in the requested direction and is a permutation of the input range. The rest of the array is unchanged. |
| QuickSort.SortArray | src/main/java/com/neo/common/ALG.java:269-271 | `sortArray(a)` leaves an ascending permutation of a. |
| QuickSort.SortArrayPaired | src/main/java/com/neo/common/ALG.java:306-367 | a ends ascending for version 0 and descending for version 1. Each (a[i], b[i]) pair with i < \|a\| is kept together, as a multiset of pairs. Entries of a longer b past the end of a stay in place. Any other version changes nothing. |
| QuickSort.SortArrayRows | src/main/java/com/neo/common/ALG.java:375-416 | An empty b throws, because the row width w is read from b[0]. Otherwise a ends ascending, and each key keeps the first w entries of its row: those pairs are permuted. Entries of a wider row from w on, and the rows past the end of a, stay in place. |
| Search.InList | src/main/java/com/neo/common/ALG.java:425-432 | True exactly when some element of the list equals t element-wise. |
| Search.InArray | src/main/java/com/neo/common/ALG.java:442-448 | True exactly when one of the first `bound` rows that exist equals t. Otherwise it throws when `bound` runs past the rows, and is false when it does not. It is false when `bound` ≤ 0. |
| BoolMatrix.NewRows | src/main/java/com/neo/common/BArray.java:18-23 | `row` null rows, an empty live pool, and no cells at all. |
| BoolMatrix.NewFull | src/main/java/com/neo/common/BArray.java:25-39 | Every cell is false and `zero_total` = row·column. The pool lists every cell exactly once in row-major order, all of it live. |
| BoolMatrix.CellsFacts | src/main/java/com/neo/common/BArray.java:31-37 | The row-major cell list holds exactly the cells of the matrix, each once, as many as the widths sum to. |
| BoolMatrix.InitializeRow | src/main/java/com/neo/common/BArray.java:51-58 | A null row gets `column` false cells and `zero_total` grows by `column`. An initialised row is left alone, and so are the other rows and the pool. |
| BoolMatrix.InitializeRowIdempotent | src/main/java/com/neo/common/BArray.java:51-58 | A second `initializeRow` on the same row changes nothing. |
| BoolMatrix.InitializeZeros | src/main/java/com/neo/common/BArray.java:64-75 | Once all rows are initialised, the pool lists every cell exactly once, `zero_total` of them, all live. |
| BoolMatrix.CellsExact | src/main/java/com/neo/common/BArray.java:64-75 | Such a pool is exact, with one live entry per cell, and complete, with every false cell live. |
| BoolMatrix.SetElement | src/main/java/com/neo/common/BArray.java:84-97 | Afterwards `getElement(i, j)` is the new value. Every other cell, the shape and the pool are unchanged. |
| BoolMatrix.SetTrueKeepsComplete | src/main/java/com/neo/common/BArray.java:95-97 | Setting a cell to true keeps every false cell in the live pool. |
| BoolMatrix.Evict | src/main/java/com/neo/common/BArray.java:124-127 | A failed draw swaps the entry with the last live one and shrinks the live part by exactly one. The multiset of live cells loses exactly the evicted cell. Every false cell stays live. |
| BoolMatrix.GetRandomZeroPosition | src/main/java/com/neo/common/BArray.java:117-134 | A returned cell is false and still live. `zero_total` never grows. Null comes back only when `zero_total` is 0, and then, on a complete pool, every cell is true. |
| Coverage.UncoveredZero | src/main/java/com/neo/combinatorial/CTModel.java:231-236 | The uncovered count is 0 exactly when every cell of every initialised row is true. |
| Coverage.UncoveredUpdate | src/main/java/com/neo/combinatorial/CTModel.java:334-348 | Replacing one row changes the uncovered count by the difference of the rows' false cells. |
| Coverage.SetTrueUncovered | src/main/java/com/neo/combinatorial/CTModel.java:340-345 | Setting a cell true lowers the uncovered count by one when it was false, and by nothing otherwise. |
| Coverage.UncoveredAllFalse | src/main/java/com/neo/combinatorial/CTModel.java:183-193 | A matrix of all-false rows has as many uncovered cells as the widths sum to. |
| Constraints.IsSuperior | src/main/java/com/neo/generator/Constraint.java:53-66 | True exactly when `con` is at least as long and contains every literal of the receiver. It is false when `con` is shorter and true for a constraint against itself. |
| Ids.BuildRelation | src/main/java/com/neo/combinatorial/CTModel.java:88-97 | Row i has value[i] entries, and entry j is 1 + value[0] + … + value[i−1] + j. |
| Ids.IdRange | src/main/java/com/neo/combinatorial/CTModel.java:88-97 | The ids of parameter i fill the interval after the ids of the earlier parameters. All ids lie in [1, total number of values]. |
| Ids.IdIncreasing | src/main/java/com/neo/combinatorial/CTModel.java:88-97 | Ids increase strictly with (parameter, value) in lexicographic order. |
| Ids.IdInjective | src/main/java/com/neo/combinatorial/CTModel.java:88-97 | Two pairs get the same id exactly when they are the same pair. |
| Ids.IdBijection | src/main/java/com/neo/combinatorial/CTModel.java:88-97 | Ids map the (parameter, value) pairs injectively into [1, total]. |
| Ids.ParamOfId | src/main/java/com/neo/combinatorial/CTModel.java:88-97 | The parameter recovered from the id of a pair is the pair's parameter, so the mapping can be inverted. |
| Ids.EncodeLiteral | src/main/java/com/neo/combinatorial/CTModel.java:65-70 | The literal of "par/val" is the negated id of the pair, and its magnitude is that id. |
| Ids.EncodeConstraints | src/main/java/com/neo/combinatorial/CTModel.java:57-73 | Each constraint becomes a list of the same length, with element l the literal of its l-th pair. |
| Ids.ConstrainedParameters | src/main/java/com/neo/combinatorial/CTModel.java:79-97 | A parameter is constrained exactly when some literal of some constraint names one of its values. |
| Ids.ConstrainedParametersMeaning | src/main/java/com/neo/combinatorial/CTModel.java:79-97 | The source's set, built from the parameters of the literal magnitudes, is exactly that set of constrained parameters. |
| Ids.MappingExample | src/main/java/com/neo/combinatorial/CTModel.java:88-97 | For five parameters of three values: value 0 of parameter 2 has id 7, value 2 of parameter 4 has id 15, and "2/2" is the literal −9. |
| Matching.Encode | src/main/java/com/neo/generator/ValidityChecker.java:322-330 | The encoded test keeps −1 for a free parameter and holds `relation[i][test[i]]` for an assigned one. |
| Matching.EncodeTest | src/main/java/com/neo/generator/ConflictCounter.java:41-49 | The counter encodes tests exactly as `isValid` does. |
| Matching.EncodeIncreases | src/main/java/com/neo/generator/ValidityChecker.java:322-330 | For an in-range test, the assigned entries of the encoding are at least 1 and strictly increasing. |
| Matching.Skip | src/main/java/com/neo/generator/ValidityChecker.java:338-342 | The scan steps over exactly the free entries and the entries below the sought magnitude. It stops at the first other entry, or at the end. |
| Matching.SkipLoop | src/main/java/com/neo/generator/ValidityChecker.java:338-344 | The loop stops where `Skip` does. `matched` stays true exactly when it stopped inside the test or did not move. |
| Matching.Match | src/main/java/com/neo/generator/ValidityChecker.java:334-352 | The loop computes the scan outcome. Corrected, it reports whether the test hits the tuple. |
| Matching.ScanNeverCrashes | src/main/java/com/neo/generator/ValidityChecker.java:345 | The corrected scan never reads past the end of the encoded test. |
| Matching.ScanAgrees | src/main/java/com/neo/generator/ValidityChecker.java:334-352 | Whenever the scan as written does not crash, it gives the corrected answer. |
| Matching.ScanSound | src/main/java/com/neo/generator/ValidityChecker.java:334-352 | When the corrected scan reports a match, the literal magnitudes occur in order among the encoded entries. |
| Matching.ScanComplete | src/main/java/com/neo/generator/ValidityChecker.java:334-352 | With ordered literals and increasing assigned entries, in-order occurrence is always found, as written or corrected. |
| Matching.HitOccurs | src/main/java/com/neo/generator/ValidityChecker.java:315-358 | A test hits a forbidden tuple exactly when the tuple's magnitudes occur, in order, in the encoded test. |
| Matching.MatchesMeaning | src/main/java/com/neo/generator/ValidityChecker.java:315-358 | For an in-range test and an ordered tuple, the corrected match holds exactly when every (parameter, value) pair of the tuple is assigned in the test. Free parameters never match. |
| Matching.ValidityCorrected | src/main/java/com/neo/generator/ValidityChecker.java:333-357 | The corrected constraint loop says "valid" exactly when no remaining forbidden tuple matches. |
| Matching.ValidityAgrees | src/main/java/com/neo/generator/ValidityChecker.java:333-357 | Whenever the loop as written does not crash, it agrees with the corrected loop. |
| Matching.IsValid | src/main/java/com/neo/generator/ValidityChecker.java:315-358 | The result is true when the set of forbidden tuples is empty. Otherwise, corrected, or as written whenever it does not crash, it is true exactly when no forbidden tuple matches. |
| Matching.ValidMeaning | src/main/java/com/neo/generator/ValidityChecker.java:315-358 | For an in-range test and ordered tuples, it is valid exactly when it hits no forbidden tuple. |
| Matching.OutOfBoundsRead | src/main/java/com/neo/generator/ValidityChecker.java:345 | The counterexample: domains [2, 2], tuple [−3, −4], test [0, 0]. The tuple is ordered and the test in range. The match as written reads past the end; the corrected one reports no match, and the test indeed does not hit the tuple. |
| Checker.Sort | src/main/java/com/neo/generator/ValidityChecker.java:213-225 | The result is a non-increasing permutation of the input. An input already in that order comes back unchanged. |
| Checker.Insert | src/main/java/com/neo/generator/ValidityChecker.java:215-223 | One outer pass inserts c[i] into the sorted prefix, keeping a permutation. |
| Checker.Shift | src/main/java/com/neo/generator/ValidityChecker.java:218-221 | The inner loop shifts the prefix entries smaller than c[i] one place right and stops at the first entry not smaller. |
| Checker.IsDuplicated | src/main/java/com/neo/generator/ValidityChecker.java:230-247 | True exactly when some constraint of v has exactly the literal list a. |
| Checker.Check | src/main/java/com/neo/generator/ValidityChecker.java:283-306 | True exactly when every literal of the shorter constraint (the first one on ties) occurs in the longer one. |
| Checker.Minimise | src/main/java/com/neo/generator/ValidityChecker.java:253-277 | The survivors form an order-preserving subsequence and are exactly the constraints not removed. No two survivors are related by `check`, and every original constraint includes some survivor. |
| Checker.KeptSubsume | src/main/java/com/neo/generator/ValidityChecker.java:253-277 | Keeping exactly the constraints not removed leaves, for every constraint, a survivor it includes. |
| Checker.Survivor | src/main/java/com/neo/generator/ValidityChecker.java:256-271 | Every constraint includes the literals of some constraint that is not removed. |
| Checker.RemoveList | src/main/java/com/neo/generator/ValidityChecker.java:256-271 | The nested loops list exactly the indices that the pairwise rule removes. |
| Checker.RemoveFrom | src/main/java/com/neo/generator/ValidityChecker.java:257-270 | One pass of the outer loop extends the list to the indices removed by pairs whose first index is below i + 1. |
| Checker.KeepOthers | src/main/java/com/neo/generator/ValidityChecker.java:273-276 | Removing the listed indices keeps the others, in order. |
| Checker.ImplicitParameters | src/main/java/com/neo/generator/ValidityChecker.java:43-64 | Parameter i is recorded, in ascending order, exactly when every id of `relation[i]` occurs by magnitude in some constraint. |
| Checker.UsedIn | src/main/java/com/neo/generator/ValidityChecker.java:47-56 | True exactly when the id occurs by magnitude in some constraint. |
| Checker.RemoveAt | src/main/java/com/neo/generator/ValidityChecker.java:87-95 | The copy is the constraint without its k-th literal, and its multiset lacks exactly that literal. |
| Checker.Merge | src/main/java/com/neo/generator/ValidityChecker.java:112-130 | The two-pointer merge computes the merged list of the two inputs. |
| Checker.MergeTake | src/main/java/com/neo/generator/ValidityChecker.java:116-129 | One step of the merge loop moves exactly one element to the output and keeps the remaining merge. |
| Checker.MergedMultiset | src/main/java/com/neo/generator/ValidityChecker.java:112-130 | The merge is an interleaving of both inputs: its multiset is their sum. |
| Checker.MergedSorted | src/main/java/com/neo/generator/ValidityChecker.java:112-130 | The merge of two non-increasing lists is non-increasing, as long as both together, and starts with the larger head. |
| Checker.ClashMeaning | src/main/java/com/neo/generator/ValidityChecker.java:133-143 | In a non-increasing literal list, two adjacent literals of one parameter with different values occur exactly when some parameter has two different values in the list. |
| Checker.Drop | src/main/java/com/neo/generator/ValidityChecker.java:133-143 | A merged tuple is dropped exactly when it assigns one parameter two different values. |
| Checker.SeekParam | src/main/java/com/neo/generator/ValidityChecker.java:135-137 | The parameter pointer advances to the parameter whose id range holds the id. |
| Checker.Dedup | src/main/java/com/neo/generator/ValidityChecker.java:147-156 | The result has no repeats and holds the same literals. A non-increasing input gives a strictly decreasing result. |
| Closure.HitIncluded | src/main/java/com/neo/generator/ValidityChecker.java:169-179 | A test that hits a constraint also hits every constraint included in it. This is why a superior constraint makes a new one redundant. |
| Closure.ClashNeverHit | src/main/java/com/neo/generator/ValidityChecker.java:133-143 | No complete test hits a tuple that gives one parameter two values, so dropping such tuples loses nothing. |
| Closure.DerivedImplied | src/main/java/com/neo/generator/ValidityChecker.java:77-165 | A tuple derived from one rest per value of an implicit parameter is implied by the original constraints. Every complete test hitting it hits an original. |
| Closure.FirstRest | src/main/java/com/neo/generator/ValidityChecker.java:84-97 | The id is found exactly when it occurs by magnitude in the constraint. The rest is then the constraint without that literal, still ordered. |
| Closure.RestsOf | src/main/java/com/neo/generator/ValidityChecker.java:82-99 | The collected list holds the rest of every constraint containing the id, and only such rests. |
| Closure.ProductStep | src/main/java/com/neo/generator/ValidityChecker.java:107-161 | Every product tuple unions one tuple of each side, assigns each parameter at most one value, and appears once. |
| Closure.CartesianOf | src/main/java/com/neo/generator/ValidityChecker.java:77-165 | Every tuple of the product for an implicit parameter is derived from one rest per value of that parameter. |
| Closure.DeriveRound | src/main/java/com/neo/generator/ValidityChecker.java:75-166 | Every new constraint of a round is derived through some implicit parameter. |
| Closure.CollectParameters | src/main/java/com/neo/generator/ValidityChecker.java:180-188 | The next-round list gains exactly the implicit parameters the constraint names, without repeats. |
| Closure.AddNew | src/main/java/com/neo/generator/ValidityChecker.java:169-190 | Existing constraints stay first. Each appended constraint is new and has no superior stored before it. Every new constraint ends up dominated by a stored one. |
| Closure.NotDominated | src/main/java/com/neo/generator/ValidityChecker.java:172-178 | True exactly when no stored constraint is superior to c. |
| Closure.Originals | src/main/java/com/neo/generator/ValidityChecker.java:33-39 | The sorted originals are well formed. They are implied by, and cover, the input constraints. |
| Closure.MinimiseKeeps | src/main/java/com/neo/generator/ValidityChecker.java:196-197 | Minimising keeps the set well formed, implied by the originals and covering them. |
| Closure.Round | src/main/java/com/neo/generator/ValidityChecker.java:70-199 | One round of the fixpoint loop keeps the constraint set well formed, sound and covering. |
| Closure.SameHits | src/main/java/com/neo/generator/ValidityChecker.java:29-208 | A sound and covering set is hit by a complete test exactly when an original constraint is. |
| Closure.Init | src/main/java/com/neo/generator/ValidityChecker.java:29-208 | The minimum forbidden tuples are sound and cover the originals. A complete test is valid exactly when it hits no original constraint. |
| CombinatorialModel.Positions | src/main/java/com/neo/combinatorial/CTModel.java:176 | `allPc` has C(n, t) rows, each a list of parameters below n. |
| CombinatorialModel.PositionAt | src/main/java/com/neo/combinatorial/CTModel.java:176 | Row i of `allPc` is an ascending t-subset of rank i. |
| CombinatorialModel.PositionRow | src/main/java/com/neo/combinatorial/CTModel.java:337 | `combine2num` of a t-subset names the row of `allPc` that holds it. |
| CombinatorialModel.TpMeaning | src/main/java/com/neo/combinatorial/CTModel.java:161-165 | The partial test is −1 off the tuple's parameters and takes the schema value on each of them. |
| CombinatorialModel.BuildTp | src/main/java/com/neo/combinatorial/CTModel.java:161-165 | The loops build exactly that partial test. |
| CombinatorialModel.NewModel | src/main/java/com/neo/combinatorial/CTModel.java:51-102 | The constructor keeps the domains and strength and encodes each constraint literal by literal. It builds the id mapping and the exact set of constrained parameters. `uniformRow` is C(n, t), and the checker's tuples come from `init`. |
| CombinatorialModel.IsValidTest | src/main/java/com/neo/combinatorial/CTModel.java:132-144 | True with no forbidden tuples. Otherwise it is true exactly when the encoded test matches none. |
| CombinatorialModel.IsValidTuple | src/main/java/com/neo/combinatorial/CTModel.java:146-153 | A tuple with no constrained parameter is valid without asking. Otherwise the checker decides. |
| CombinatorialModel.ShortcutSound | src/main/java/com/neo/combinatorial/CTModel.java:146-153 | When every forbidden tuple only names constrained parameters, the shortcut is sound: a tuple free of them hits none. |
| CombinatorialModel.IsValidAt | src/main/java/com/neo/combinatorial/CTModel.java:160-167 | The tuple is valid exactly when its partial test hits no forbidden tuple. |
| Combinations.CellOf | src/main/java/com/neo/combinatorial/CTModel.java:334-348 | A (position, schema) pair names the cell in the row holding the position, at the column that is the schema's rank. |
| Combinations.SchemaAt | src/main/java/com/neo/combinatorial/CTModel.java:238-239 | Every cell is named by exactly one schema, the `num2val` of its column, so cells and tuples correspond one to one. |
| Combinations.Covered | src/main/java/com/neo/combinatorial/CTModel.java:334-348 | The result is the prior value of the tuple's cell. With FLAG = 1 the cell becomes true and `combUncovered` drops by one when the cell was false. Otherwise nothing changes. |
| Combinations.TestColumn | src/main/java/com/neo/combinatorial/CTModel.java:315-322 | The cell a test covers in row r is at the rank of its projection onto `allPc[r]`. |
| Combinations.Fitness | src/main/java/com/neo/combinatorial/CTModel.java:312-324 | The count is the number of rows whose cell for the test is still false. FLAG = 0 changes nothing. FLAG = 1 marks those cells and lowers `combUncovered` by the count. |
| Combinations.FitnessValueOf | src/main/java/com/neo/combinatorial/CTModel.java:257-259 | The number of t-way combinations of the test still uncovered, between 0 and the number of rows. It is 0 exactly when all are covered. |
| Combinations.UpdateCombination | src/main/java/com/neo/combinatorial/CTModel.java:302-304 | Marks every combination of the test covered and lowers `combUncovered` by the number that were not. |
| Combinations.SingleTestCovers | src/main/java/com/neo/combinatorial/CTModel.java:267-294 | A single test hits exactly one cell per row. |
| Combinations.CountRow | src/main/java/com/neo/combinatorial/CTModel.java:275-289 | The count is the number of distinct cells of the row that the suite hits. |
| Combinations.TotalCovered | src/main/java/com/neo/combinatorial/CTModel.java:275-291 | The total is the number of distinct (row, cell) pairs the suite hits. |
| Combinations.FitnessValue | src/main/java/com/neo/combinatorial/CTModel.java:267-294 | −1 for an empty suite. Otherwise `combUncovered` is set to, and the result is, `combAll` minus the number of cells the suite hits. |
| Combinations.InitializeRows | src/main/java/com/neo/combinatorial/CTModel.java:183-193 | Row i gets `combineValue(allPc[i])` false cells. The count is the sum of the widths. |
| Combinations.Initialization | src/main/java/com/neo/combinatorial/CTModel.java:173-196 | `allPc` is the t-subsets and every cell is false. `combRaw` = `combAll` = `combUncovered` = the number of t-way combinations, and the pool is complete. |
| Combinations.RemoveInvalidRow | src/main/java/com/neo/combinatorial/CTModel.java:208-212 | Every invalid combination of the row becomes true. `combAll` − `combUncovered` is unchanged. |
| Combinations.RemoveInvalidCombinations | src/main/java/com/neo/combinatorial/CTModel.java:204-214 | A cell ends true exactly when it was true or its tuple is invalid. `combAll` and `combUncovered` drop together. |
| Combinations.Draw | src/main/java/com/neo/combinatorial/CTModel.java:234-236 | The drawn cell is false. Nothing drawn means no false cell is left. The matrix and counters are unchanged. |
| Combinations.MarkInvalid | src/main/java/com/neo/combinatorial/CTModel.java:240-241 | Marking a drawn invalid tuple covered marks only invalid cells and lowers the false count by one. |
| Combinations.DrawTuple | src/main/java/com/neo/combinatorial/CTModel.java:234-239 | The first draw returns a false cell with its tuple and whether it is valid. |
| Combinations.Retry | src/main/java/com/neo/combinatorial/CTModel.java:240-245 | One retry marks the invalid cell and strictly lowers the number of false cells. |
| Combinations.GetAnUncoveredTuple | src/main/java/com/neo/combinatorial/CTModel.java:223-248 | Null only when no false cell remains. A returned tuple is valid and uncovered. Only invalid cells get marked, and `combAll` is unchanged. |
| ConflictCounting.ViolationsCount | src/main/java/com/neo/generator/ConflictCounter.java:52-76 | The count is the number of matched forbidden tuples, at most their number. |
| ConflictCounting.ViolationsZero | src/main/java/com/neo/generator/ConflictCounter.java:52-76 | The count is 0 exactly when `isValid` holds. |
| ConflictCounting.ViolationsHit | src/main/java/com/neo/generator/ConflictCounter.java:34-77 | For an in-range test and ordered tuples, the count is the number of forbidden tuples the test hits. |
| ConflictCounting.ViolateConstraintNum | src/main/java/com/neo/generator/ConflictCounter.java:34-77 | 0 with no constraints. Corrected, or as written whenever it does not crash, it counts the matched tuples, in [0, size]. |
| ConflictCounting.SuiteViolationsZero | src/main/java/com/neo/generator/ConflictCounter.java:79-84 | The suite count is 0 exactly when every test of the suite is valid. |
| ConflictCounting.SuiteViolationsReplace | src/main/java/com/neo/generator/ConflictCounter.java:79-84 | Replacing one test changes the suite count by the new test's count minus the old one's. |
| ConflictCounting.SuiteViolateConstraintNum | src/main/java/com/neo/generator/ConflictCounter.java:79-84 | The suite overload is the sum of the per-test counts, and 0 for an empty suite or no constraints. |
| ConflictCounting.SuiteViolationsBound | src/main/java/com/neo/generator/ConflictCounter.java:79-84 | The suite count is at most the number of tests times the number of tuples. |
| SearchBounds.TopTwoUnique | src/main/java/com/neo/generator/SA.java:84-104 | The two largest entries, duplicates counted, are determined by the domain sizes. |
| SearchBounds.Bounds2Way | src/main/java/com/neo/generator/SA.java:84-104 | Fewer than two parameters throw, because `values[1]` is read unconditionally. Otherwise lower is the product of the two largest domain sizes and upper is 5·max². |
| SearchBounds.TopThreeOrdered | src/main/java/com/neo/generator/SA.java:109-128 | The three largest entries come in non-increasing order. |
| SearchBounds.TopThreeStep | src/main/java/com/neo/generator/SA.java:114-125 | One step of the scan keeps the running three largest entries. |
| SearchBounds.Bounds3Way | src/main/java/com/neo/generator/SA.java:109-128 | lower is the product of the three largest domain sizes, duplicates counted, and upper is 5·max³. |
| SearchBounds.Probe | src/main/java/com/neo/generator/SA.java:135 | N = (lower + 2·upper)/3 lies in [lower, upper], within a third of the window below upper. |
| SearchBounds.OuterSearch | src/main/java/com/neo/generator/SA.java:133-152 | The loop terminates. The result is empty or an inner result for a size n in the window. Whatever the inner search does, an empty result means size `upper` failed, and a result at size n means n is `lower` or size n − 1 failed. When success is monotone in the size, it is empty exactly when every size fails, and otherwise it is the result for the least size that succeeds. |
| Occupancy.ZeroCellsZero | src/main/java/com/neo/generator/SA.java:236-238 | The table has no zero entry exactly when its zero count is 0. |
| Occupancy.UpdatedZeros | src/main/java/com/neo/generator/SA.java:266-293 | The zero count of the table changes by the returned number. It grows by it for flag 0 (targets nonzero) and shrinks by it for flag 1. |
| Occupancy.AddThenRemove | src/main/java/com/neo/generator/SA.java:266-293 | Removing a test just added (flag 1 then flag 0) restores the table exactly, and both calls return the same count. |
| Occupancy.CountPositive | src/main/java/com/neo/generator/SA.java:277-289 | A cell's occupancy is positive exactly when some test of the suite hits it. |
| Occupancy.TracksCounters | src/main/java/com/neo/generator/SA.java:298-307 | A tracking table never holds an entry below −1. |
| Occupancy.TracksZero | src/main/java/com/neo/generator/SA.java:236-238 | A tracking table has no zero cell exactly when the suite hits every valid combination. |
| Occupancy.HitCellsNonzero | src/main/java/com/neo/generator/SA.java:277-289 | The cells a test of the suite hits are never 0. |
| Occupancy.AddTracks | src/main/java/com/neo/generator/SA.java:204 | Adding a test with flag 1 gives the table of the suite with that test appended. |
| Occupancy.RemoveTracks | src/main/java/com/neo/generator/SA.java:202 | Removing test i with flag 0 gives the table of the suite without it. |
| Occupancy.ReplaceTracks | src/main/java/com/neo/generator/SA.java:189-232 | The table of the suite without row i plus the new test is the table of the suite with row i replaced. |
| Occupancy.KnownComplete | src/main/java/com/neo/generator/SA.java:270-276 | For a complete test, the column computed from its known values is the `val2num` of its projection. |
| Occupancy.ColumnOf | src/main/java/com/neo/generator/SA.java:270-276 | The column loop computes the mixed-radix rank of the test's values at the row's parameters. |
| Occupancy.TouchRow | src/main/java/com/neo/generator/SA.java:277-289 | One row is updated at the test's column, and the count grows exactly when that entry flips. |
| Occupancy.UpdateTestCaseCoverage | src/main/java/com/neo/generator/SA.java:266-293 | −1 cells are never touched. Each other cell the test hits is incremented (flag 1) or decremented (flag 0). The result counts the 0→1 or 1→0 flips. |
| Occupancy.TracksEmpty | src/main/java/com/neo/generator/SA.java:298-307 | −1 exactly where the matrix is true and 0 elsewhere is the table of the empty suite. |
| Occupancy.InitRow | src/main/java/com/neo/generator/SA.java:302-306 | Each entry is −1 when the matrix cell is true and 0 when it is false. The zeros are the row's false cells. |
| Occupancy.InitCover | src/main/java/com/neo/generator/SA.java:298-307 | The table has the matrix's shape and is the table of the empty suite. Its zero count is the matrix's uncovered count. |
| Occupancy.UpdateTestSuiteCoverage | src/main/java/com/neo/generator/SA.java:252-257 | After adding every test, the table tracks the suite. The result is `combAll` minus the number of zero cells lost. |
| Annealing.Sample | src/main/java/com/neo/generator/SA.java:312-317 | Every sampled value lies in its domain, so the test is complete. |
| Annealing.CheckTest | src/main/java/com/neo/generator/SA.java:164 | True exactly when the test is valid. |
| Annealing.ValidSample | src/main/java/com/neo/generator/SA.java:163-165 | A returned test is complete and valid. Nothing comes back only when the resampling budget ran out on invalid samples. |
| Annealing.InitialSuite | src/main/java/com/neo/generator/SA.java:160-167 | A returned suite has N complete tests, all valid under hard constraints. Tolerant mode always returns one. |
| Annealing.Start | src/main/java/com/neo/generator/SA.java:158-171 | The initial suite, its table, `uncoverNum` (the number of zero cells) and `violateCons` (the suite's violations, 0 in hard mode) establish the search invariant. |
| Annealing.Success | src/main/java/com/neo/generator/SA.java:236-238 | Under the invariant, `uncoverNum` = 0 and `violateCons` = 0 mean every valid combination is hit and every test is valid. |
| Annealing.Accepted | src/main/java/com/neo/generator/SA.java:218-227 | An accepted move updates `uncoverNum` and `violateCons` so that the invariant holds for the suite with row replaced. |
| Annealing.Move | src/main/java/com/neo/generator/SA.java:189-232 | Accepting or rolling back keeps the invariant. The suite is either unchanged or has exactly row replaced. |
| Annealing.Draws | src/main/java/com/neo/generator/SA.java:177-179 | The drawn row is in [0, N) and the drawn value is in the drawn parameter's domain. |
| Annealing.Skipped | src/main/java/com/neo/generator/SA.java:186-187 | A pass is discarded exactly when the value does not change or, in hard mode, the modified test is invalid. |
| Annealing.InnerSearch | src/main/java/com/neo/generator/SA.java:157-250 | A non-empty result has N complete tests that hit every valid t-way combination and are all valid. At most `maxRound` passes are made. |
| Annealing.InnerLoopAsWritten | src/main/java/com/neo/generator/SA.java:174-187 | Any suite returned by the loop as written is a covering array. With every domain of size 1, every pass is discarded: round stays 0 and the loop never returns, whatever the budget. |

## Left out

- Java `int` and `long` overflow in `combine`, `combineValue`, `val2num`, the bound products and the counters: the model uses mathematical integers.
- `java.util.Random`: each draw is read from a stream `rand` and reduced modulo its bound. `getAnUncoveredTuple` reads draw k of attempt a as `rand(a, k)`.
- The temperature, `cool`, `Math.pow(Math.E, delta / temperature)` and `nextDouble` (SA.java lines 222-225, 322-326) are floating point. The acceptance of a worsening move is the arbitrary boolean `accept(round)`, and `delta` is kept as an integer.
- `SA.generation` (lines 36-79) is left out. It covers the console output, the choice of strength, and the lower-bound retry loop, which has no evident variant. The outer search it calls is modelled with the inner search as an oracle.
- Annealing.ValidSample: the hard-mode resampling loop (lines 164-165) may run forever on a model with no valid test. It is bounded by a budget `tries`, and an exhausted budget returns nothing.
- Closure.Originals requires every input constraint to list distinct literals, each the negated id of a (parameter, value) pair. The source sorts the literals and keeps a repeat. A tuple that names an id twice can then never be matched by the in-order scan of `isValid`, which needs the id at two positions of a strictly increasing encoding; the scan can also read past the end. The model does not define what such a tuple forbids.
- Closure.Init has the same distinct-literals requirement, for the same reason, and requires every literal to name a (parameter, value) pair of the domains.
- CombinatorialModel.NewModel requires distinct pairs in each constraint, for the reason given for Closure.Originals. It also requires every pair to lie in the domains. For a parameter past the last one, the constructor's sum over `value` throws. An out-of-range value silently becomes the id of another pair. Neither case is modelled.
- MixedRadix.AllV requires non-negative domain sizes, and negative sizes are not modelled. For a negative product, `new int[comb][t]` throws. Domain sizes come from the model, where every parameter has at least one value.
- QuickSort.SortArrayPaired requires b to be at least as long as a. With a shorter b, whether the source throws depends on which indices the partitions reach, and the model does not track that.
- QuickSort.SortArrayRows requires, for a non-empty b, that b is at least as long as a and that rows below the length of a are at least as wide as b[0]. Otherwise, whether the source throws depends on which rows the partitions move.
- Closure.Init: the fixpoint loop of `init` (lines 70-199) has no evident variant. It runs for at most `rounds` rounds, and the contract holds after any number of rounds.
- Annealing.InnerLoopAsWritten: the loop as written is run for at most `budget` passes so that the method terminates. Its non-termination is stated as "no return within any budget".
- Annealing.InnerSearch requires that `combAll` equals the number of uncovered cells. `initialization` followed by `removeInvalidCombinations` establishes this. It also requires N ≥ 1 and at least one parameter, because `nextInt` throws otherwise.
- Combinations.GetAnUncoveredTuple requires strength t ≥ 1: `num2val` reads `ret[t - 1]`. MixedRadix.Num2Val has the same requirement.
- CombinatorialModel.IsValidTuple: the shortcut is proved sound (CombinatorialModel.ShortcutSound) only for forbidden tuples that name constrained parameters alone. That is true of the originals; the model does not prove it for derived tuples.
- SearchBounds.Bounds3Way requires at least three parameters and domain sizes above the smallest `int`, so that the running maxima start below every entry.
- String parsing of "par/val" literals (`split`, `Integer.valueOf`): constraints are given as (parameter, value) pairs.
- `CTModel.show`, the getters, and all printing.
- `ALG.cal_permutation`: nothing calls it. It builds a `HashMap` keyed by boxed lists.
- The `Constraint` constructor and `clone`, and the copying constructor of `ConflictCounter`: with immutable values a copy is the value itself, so there is nothing to state.
- `DockerController`, `Main`, `Result`, `TestSuite` and `TestCase` are not part of this model. They are I/O plumbing and data holders.

## Findings

| source | as written | input that shows it | evidently intended | confidence | as-written member | corrected member |
|---|---|---|---|---|---|---|
| src/main/java/com/neo/generator/ValidityChecker.java:337-345 (same loop at src/main/java/com/neo/generator/ConflictCounter.java:57-65) | When a literal matched the last entry of `TC`, k equals `TC.length`. The skip loop then does not run, `matched` stays true, and line 345 reads `TC[TC.length]`. | Domains [2, 2], constraint {"1/0", "1/1"} (literals [−3, −4]), complete test [0, 0] encoded as [1, 3]. | Running out of test entries with literals left means "no match", so the test is valid. | not executed | Matching.OutOfBoundsRead | Matching.ValidMeaning |
| src/main/java/com/neo/generator/SA.java:186-187 | A discarded pass `continue`s past `round++` (line 241), so discarded passes do not count towards `maxRound`. | Every domain of size 1 (e.g. domains [1, 1]): every drawn symbol equals the current value, every pass is discarded, and the loop never ends. | Every pass counts as a round, so the inner search ends after at most `maxRound` passes. | not executed | Annealing.InnerLoopAsWritten | Annealing.InnerSearch |
