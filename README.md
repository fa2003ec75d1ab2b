# Derivative rank scaler in Dafny

`DerivativeRankScaler` turns every column of a numeric array into a
rank-like lookup table.

- `fit` sorts each column (`X_fit`) and computes its *derivative rank*
  (`Y_fit`).
- `transform` interpolates new values against those tables, column by
  column.

The derivative rank of a sequence `x` at depth `d`:

- sorts `x` and takes the step sizes between neighbours (`_get_steps`);
- replaces those steps by their own derivative rank at depth `d - 1`, or,
  at depth 0, replaces every step by 1 if it exceeds `epsilon` and by 0
  otherwise;
- adds the steps back up from the smallest value and undoes the sort
  (`_integrate`);
- divides by the largest absolute value.

The model works on exact `real` numbers. It has three modules.

- `ArrayOps` (`array_ops.dfy`): the numpy primitives the scaler uses,
  stated as functions with their properties.
  - Argsort, and any sorting permutation (`IsSortingPermutation`).
  - Fancy indexing (`Gather`), `diff` (`Diff`), `append(0, cumsum)`
    (`Integrated`), the epsilon threshold, and division by the max-abs.
- `DerivativeRank` (`derivative_rank.dfy`): the pure recursive core.
  - `GetSteps`, `Integrate` and `DerivateRank`, with the lemmas about them.
  - Every member takes `argsort` as a parameter and only assumes
    `IsArgSort(argsort)`: the function returns *some* permutation that
    sorts its input. numpy's default argsort is not stable, so the model
    fixes no order of ties. For `epsilon >= 0`, `DerivateRankAnyArgSort`
    proves that every such function gives the same result.
    `ArrayOps.ArgSort` (an insertion argsort) shows that such a function
    exists.
  - `Defined(x, d, eps, argsort)` is exactly the set of inputs on which the
    source neither indexes an empty array nor divides by zero.
- `Scaler` (`scaler.dfy`): the class `DerivativeRankScaler`.
  - It has the constant fields `d` and `epsilon`.
  - It has the mutable fields `fitted`, `xFit` and `yFit`. The last two are
    the columns of `X_fit` and `Y_fit`.
  - `Fit`, `Transform`, `FitTransform` and `Reset` are methods that keep
    `Valid()`.
  - An input array is an `NdArray`: its shape plus its entries in row-major
    order.

Main results:

- `_get_steps` followed by `_integrate` with `constant=False` gives back the
  input, for every sorting permutation.
- On every input that `Defined` admits, the non-negativity assertion in
  `_integrate` holds at every level of the recursion, because it is
  `Integrate`'s precondition and every call establishes it.
- The result has max-abs 1, keeps the length of the input, and keeps
  non-negative input non-negative.
- For `epsilon >= 0` the result is *monotone*: `x[i] <= x[j]` implies
  `r[i] <= r[j]`. Equal inputs get equal outputs and, for non-negative input, zeros stay
  zero.
  Any two argsorts give the same result, so the tie order of argsort never
  shows in it.
- For `epsilon >= 0`, a fitted scaler's `Y_fit` columns are sorted like
  `X_fit`. An interpolation that is exact at the knots maps `X_fit` back
  onto `Y_fit` (`LookupAtKnots`).

## Model

| member | source | states |
|---|---|---|
| ArrayOps.ArgSort | derivative_rank.py:77 | `np.argsort`: returns a permutation of the indices that reads `x` in non-decreasing order, with the same multiset of values |
| ArrayOps.ArgSortIsArgSort | derivative_rank.py:77 | the insertion argsort returns a sorting permutation on every input, so the assumption `IsArgSort` that the core relies on can be met |
| ArrayOps.Sort | derivative_rank.py:52 | `np.sort`: the result is sorted and a permutation (the same multiset) of the input |
| ArrayOps.SortingPermutationInverts | derivative_rank.py:91 | `argsort(order)` of a permutation `order` is its inverse: `order[q[j]] == j` and `q[order[k]] == k` for any sorting permutation `q` of it |
| ArrayOps.PermutationCovers | derivative_rank.py:91 | every index below n occurs in a permutation of 0..n-1 |
| ArrayOps.OrderedAlong | derivative_rank.py:90-91 | a sequence that does not decrease along a sorting permutation of `x` does not put a larger value where `x` is strictly smaller |
| ArrayOps.Gather | derivative_rank.py:78 | `x[order]` keeps the length of `order`; read through a sorting permutation it is sorted |
| ArrayOps.PermutationMultiset | derivative_rank.py:78 | `x[order]` for any permutation `order` has the same multiset of values as `x` |
| ArrayOps.SortedUnique | derivative_rank.py:78 | two sorted sequences with the same multiset of values are equal |
| ArrayOps.SortingPermutationsAgree | derivative_rank.py:77-78 | any two sorting permutations of `x` give the same `x[order]`, whatever order they put ties in |
| ArrayOps.FollowsSorted | derivative_rank.py:23 | a sequence that follows the order of a sorted sequence is itself sorted |
| ArrayOps.Diff | derivative_rank.py:78 | `np.diff` has one entry fewer than a non-empty input |
| ArrayOps.Integrated | derivative_rank.py:90 | `x0 + append(0, cumsum(steps))` has `len(steps) + 1` entries, starts at x0 and climbs by exactly one step per position |
| ArrayOps.IntegratedDiff | derivative_rank.py:90 | cumulative summation from the first value undoes `diff` |
| ArrayOps.DiffIntegrated | derivative_rank.py:78 | `diff` undoes cumulative summation |
| ArrayOps.IntegratedMonotone | derivative_rank.py:87-90 | with non-negative steps the cumulative sum never decreases |
| ArrayOps.IntegratedRises | derivative_rank.py:87-90 | with non-negative steps, position k+1 lies at least step k above x0 |
| ArrayOps.IntegratedFlat | derivative_rank.py:90 | across a stretch of zero steps the cumulative sum stays flat |
| ArrayOps.Threshold | derivative_rank.py:89 | `(delta > epsilon).astype(int)` keeps the length |
| ArrayOps.SumThreshold | derivative_rank.py:89-90 | summing thresholded steps counts the steps above epsilon |
| ArrayOps.IntegratedThreshold | derivative_rank.py:89-90 | entry k of the thresholded cumulative sum is x0 plus the number of the first k steps above epsilon |
| ArrayOps.MaxAbs | derivative_rank.py:70 | `np.max(np.abs(s))` bounds every `abs(s[k])` and is reached by some entry |
| ArrayOps.DivideByMaxAbs | derivative_rank.py:70 | dividing by a non-zero max-abs keeps the length and gives max-abs exactly 1 |
| ArrayOps.DivideByMaxAbsKeepsOrder | derivative_rank.py:70 | the division keeps the order of every pair of entries, in both directions |
| ArrayOps.DivideByMaxAbsKeepsTies | derivative_rank.py:70 | a sequence equal on the ties of `x` stays equal on them after the division |
| ArrayOps.DivideByMaxAbsKeepsSign | derivative_rank.py:70 | the division keeps non-negative entries non-negative and zeros zero, in both directions |
| DerivativeRank.GetSteps | derivative_rank.py:72-80 | `order` is a permutation that sorts x; `delta` has `len(x) - 1` entries, all non-negative, with `delta[k] == x[order[k+1]] - x[order[k]]`; `x0 == x[order[0]]` is the minimum of x |
| DerivativeRank.EffectiveSteps | derivative_rank.py:88-89 | the steps `_integrate` accumulates keep the length and stay non-negative |
| DerivativeRank.Integrate | derivative_rank.py:82-91 | requires non-negative steps (the assertion at line 87) and a permutation; the result has `len(delta) + 1` entries and `result[order[k]] == x_sorted[k]` |
| DerivativeRank.IntegrateOrdered | derivative_rank.py:88-91 | read in `order`, the result starts at x0 and never decreases, so x0 is its minimum |
| DerivativeRank.RoundTrip | derivative_rank.py:82-91 | for any sorting permutation of x, integrating the sorted differences from the first sorted value with constant=False gives back x |
| DerivativeRank.GetStepsRoundTrip | derivative_rank.py:72-91 | `_integrate(*_get_steps(x))` with constant=False equals x for every non-empty x |
| DerivativeRank.IntegrateConstantCounts | derivative_rank.py:88-91 | with constant=True the value at `order[k]` is x0 plus the number of the first k steps above epsilon |
| DerivativeRank.Defined | derivative_rank.py:59-79 | the inputs on which `_derivate_rank(x, d)` indexes no empty array and divides by a non-zero max-abs; `DefinedBase` and `DivisorNonZero` prove that it is exactly that |
| DerivativeRank.DefinedLength | derivative_rank.py:79 | the recursion to depth d needs at least d+1 values |
| DerivativeRank.IntegrateNotAllZero | derivative_rank.py:69-70 | a re-integrated sequence from a non-zero x0, or with some positive step, has a non-zero max-abs |
| DerivativeRank.DivisorNonZero | derivative_rank.py:66-70 | on defined inputs the divisor at line 70 is non-zero at every depth; above depth 0 this holds because the recursive result has max-abs 1 |
| DerivativeRank.DefinedBase | derivative_rank.py:69-70 | at depth 0, `Defined` holds exactly when the divisor at line 70 is non-zero |
| DerivativeRank.DerivateRank | derivative_rank.py:59-70 | `_derivate_rank`: keeps the length, has max-abs exactly 1, and maps non-negative input to non-negative output |
| DerivativeRank.ReIntegrated | derivative_rank.py:66-69 | the re-integrated sequence keeps the length, is not all zero, and is non-negative for non-negative input |
| DerivativeRank.LevelSteps | derivative_rank.py:66-68 | the steps handed to `_integrate` keep the length of the raw steps, stay non-negative (so the assertion at line 87 holds in every recursive call), and have max-abs 1 at every depth d > 0 |
| DerivativeRank.ReIntegratedOrdered | derivative_rank.py:88-91 | the re-integrated sequence starts at x0 and never decreases along the sorting order |
| DerivativeRank.DerivateRankOrdered | derivative_rank.py:59-70 | the result never decreases along the sorting order, and `x[i] < x[j]` implies `r[i] <= r[j]` |
| DerivativeRank.FlatStretch | derivative_rank.py:66-69 | for epsilon >= 0, a stretch of zero steps stays flat through the whole recursion |
| DerivativeRank.LevelStepsKeepZero | derivative_rank.py:66-68 | for epsilon >= 0, the steps of a level are zero wherever the raw steps are |
| DerivativeRank.DerivateRankKeepsZero | derivative_rank.py:59-70 | for epsilon >= 0 and non-negative input, zero entries map to zero |
| DerivativeRank.DerivateRankTies | derivative_rank.py:59-70 | for epsilon >= 0 and any one argsort, equal inputs give equal outputs |
| DerivativeRank.DerivateRankMonotone | derivative_rank.py:59-70 | for epsilon >= 0, `x[i] <= x[j]` implies `r[i] <= r[j]`, so a sorted input gives a sorted result |
| DerivativeRank.GetStepsSameValues | derivative_rank.py:72-80 | any two argsorts give the same steps and the same smallest value |
| DerivativeRank.DefinedAnyArgSort | derivative_rank.py:59-79 | if the recursion is defined for one argsort, it is defined for every argsort |
| DerivativeRank.DerivateRankAnyArgSort | derivative_rank.py:59-70 | for epsilon >= 0, `_derivate_rank` gives the same result for every argsort, whatever order it puts ties in |
| DerivativeRank.ReIntegratedAnyArgSort | derivative_rank.py:66-69 | for epsilon >= 0, the re-integrated sequence is the same for every argsort |
| DerivativeRank.LevelStepsAnyArgSort | derivative_rank.py:66-68 | for epsilon >= 0, the steps of every level are the same for every argsort |
| DerivativeRank.SameStepsSameReIntegrated | derivative_rank.py:88-91 | two argsorts that lead to the same steps and smallest value give the same re-integrated sequence |
| DerivativeRank.ReIntegratedTies | derivative_rank.py:66-69 | for epsilon >= 0, the re-integrated sequence takes one value on each run of equal inputs |
| Scaler.NdArray.Cols | derivative_rank.py:30-32 | a rank-1 array is one column, otherwise there are `shape[1]` columns; a well-formed array of rank 1 or 2 holds exactly `RowCount` complete rows of that many entries |
| Scaler.ColumnOf | derivative_rank.py:22 | the column of row-major data has one entry per complete row |
| Scaler.ColumnOfIndex | derivative_rank.py:22 | entry i of column j is entry `i * cols + j` of the row-major data |
| Scaler.SortedColumns | derivative_rank.py:22 | `X_fit`: one column per input column, each sorted, with the same multiset of values as the input column and one entry per row |
| Scaler.ColumnRanks | derivative_rank.py:23 | `Y_fit`: one column per `X_fit` column, of the same length, with max-abs 1, and non-negative over a non-negative column |
| Scaler.ColumnRanksAnyArgSort | derivative_rank.py:23 | for epsilon >= 0, `Y_fit` is the same for every argsort |
| Scaler.FitIsFitted | derivative_rank.py:18-23 | `fit` produces one `X_fit` column per input column, sorted and with the same multiset of values, each paired with its derivative rank: a fitted state |
| Scaler.FittedRanks | derivative_rank.py:22-23 | in a fitted state every `Y_fit` column has the shape of `X_fit`, max-abs 1, and is non-negative over a non-negative column; for epsilon >= 0 it is sorted and equal on ties |
| Scaler.SortedColumnRank | derivative_rank.py:23 | for epsilon >= 0 the rank of a sorted column is sorted and equal on equal values |
| Scaler.LookupAtKnots | derivative_rank.py:26-35 | for epsilon >= 0 and an interpolation that is exact at the last of equal knots, looking the fitted values up returns `Y_fit` |
| Scaler.LookupColumn | derivative_rank.py:34 | the same statement for one column with sorted knots whose ties carry equal values |
| Scaler.LastAtMostAtKnots | derivative_rank.py:34 | a lookup returning the table value of the last knot not above the value meets the assumption `InterpAtKnots`, so the requires of `LookupAtKnots` can be met |
| Scaler.LastAtMostAtKnot | derivative_rank.py:34 | at a knot that ends its run of equal knots, that lookup returns the knot's table value |
| Scaler.EndOfRun | derivative_rank.py:34 | every value of a sorted sequence has a last position in its run of equal values |
| Scaler.DerivativeRankScaler.constructor | derivative_rank.py:9-11 | stores d (default 1) and a non-negative epsilon (default 0) and starts unfitted |
| Scaler.DerivativeRankScaler.Fit | derivative_rank.py:18-24 | a rank above 2 fails with the shape error and changes nothing; otherwise `X_fit` is the sorted columns, `Y_fit` their ranks, and the scaler is fitted |
| Scaler.DerivativeRankScaler.Transform | derivative_rank.py:26-35 | fails when unfitted, fails with (expected, got) column counts on a mismatch, and otherwise returns one value per input entry: entry k is interpolated against fitted column `k % cols`; the state is unchanged |
| Scaler.DerivativeRankScaler.FitTransform | derivative_rank.py:37-39 | fit, then transform the same X: a rank above 2 fails and changes nothing; otherwise the new state is the one `Fit` leaves, and the result is the transform of X against it, since the column count always matches |
| Scaler.DerivativeRankScaler.Reset | derivative_rank.py:54-57 | removes the fitted columns; the scaler is unfitted again |

## Left out

- Non-finite cleaning in `_clean_input` (derivative_rank.py:50-51). Dafny `real` has no NaN or infinity, so every input is finite and cleaning reduces to the sort at line 52.
- Scaler.DerivativeRankScaler.Transform: `np.interp` is a parameter `interp` and is not modelled. numpy's source is not part of this model, and its floating-point work has no exact counterpart. `Scaler.InterpAtKnots` states the one property of it that `LookupAtKnots` uses.
- Scaler.DerivativeRankScaler.Transform: requires rank 1 or 2. The source does not reject other ranks there: rank 0 fails on `X.shape[1]`, and rank 3 or more runs `np.interp` on slices.
- DerivativeRank.DerivateRank: the order argsort gives to ties is a parameter and is not fixed. Every lemma holds for any sorting permutation. For epsilon < 0 the result depends on that order, and no lemma relates two argsorts there.
- Scaler.DerivativeRankScaler.constructor: requires epsilon >= 0, as the docstring at derivative_rank.py:7 asks ("should be zero"). For epsilon < 0 the result would depend on argsort's tie order, and the class fixes the insertion argsort's order, which numpy need not share.
- DerivativeRank.DerivateRank: requires `Defined`, instead of modelling what the source does on other inputs. On an all-zero re-integrated column, line 70 divides by zero and produces NaN values with a warning. For d = 0 those NaN values are the result. For d >= 1 they are the steps of the level above, and the assertion at line 87 fails on them, because `NaN >= 0` is false: `_integrate` raises `AssertionError`. On a sequence too short for the depth, line 79 raises `IndexError`.
- DerivativeRank.DerivateRank: d is a `nat`. A negative d in the source skips the recursion and integrates without thresholding. That case is not modelled.
- Scaler.DerivativeRankScaler.constructor: d is a `nat`, so the scaler cannot be built with the negative d of the line above.
- Scaler.DerivativeRankScaler.Fit: requires at least one column and non-empty columns on which `Defined` holds (`Fittable`). The source raises on other input: `np.apply_along_axis` on zero columns, `np.max` on an empty column. A non-empty column that is not `Defined` gets NaN ranks (d = 0), or raises `AssertionError` in `_integrate` or `IndexError` at line 79 (d >= 1). A constant column with the default d = 1 does the latter. In that case line 22 has already replaced `X_fit` when line 23 raises, and the model does not capture this half-updated state.
- Scaler.DerivativeRankScaler.FitTransform: has the same requires as `Fit` (rank at least 1, and `Fittable` for rank 1 or 2), for the same reasons.
- Scaler.DerivativeRankScaler.Fit: requires every input to have at least one dimension. For rank 0 the source sends the array to `apply_along_axis`, which fails.
- Floating-point rounding: all arithmetic is exact.
- `apply_along_axis`, `column_stack`, `reshape` and `flatten` are modelled only by their effect: columns are read from row-major data, and the output is row-major.
- `X_fit` and `Y_fit` are stored as sequences of columns rather than as 2-D arrays.

## Notes on the code

- `transform` flattens the `column_stack` result in numpy's default row-major order, so entry k of the output belongs to column `k % cols`.
- numpy's default argsort is not stable, so the core fixes no order of ties. For epsilon >= 0, `DerivateRankAnyArgSort` shows that the tie order cannot change the result. `DerivateRankTies` states something else: for one fixed argsort, equal inputs get equal outputs.
