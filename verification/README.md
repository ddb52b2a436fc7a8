# Monte Carlo linear solver, modelled in Dafny

This project models `MonteCarloLinearSolver` from `src/linear_algebra/mc_solvers.py`. It is a
Monte Carlo solver for a linear system `A x = b` and for the inverse of `A`. Both work with
importance-weighted random walks over the indices `0..n-1`:

- **Construction** takes an `n`-by-`n` matrix `A` and an optional right-hand side `b`.
- **Linear system (SLAE).** Preprocessing builds the iteration matrix
  `H = I - gamma D^-1 A` and the bias `g = gamma D^-1 b`, where `D` is the diagonal of `A`. It
  also builds the transition matrix `P`, which is `|H|` normalised row by row. A walk from `i`
  starts with weight `W = 1` and estimate `theta = g[i]`. Each step samples the next index `j`
  from row `P[i]`, sets `W := W * H[i][j] / P[i][j]` and adds `W * g[j]` to `theta`. The walk
  stops on an all-zero row, on a zero-probability draw, when `|W| < epsilon`, or after `max_len`
  steps. Component `x[i]` is the mean of `N` walk estimates from `i`.
- **Matrix inversion (MI).** `L = I - A`, and `P` is `|L|` normalised the same way. A walk from
  `i` deposits its weight `W` at every index it visits, into an accumulator `xi`, for at most
  `m` steps. Row `i` of `C` is the column-wise mean of the `N` accumulators.

## Modules

- `results.dfy` (`Results`): `Option` and `Result`.
- `matrices.dfy` (`Matrices`): vectors and matrices as sequences of reals.
  - The numpy operations the solver uses: sum, dot, `@`, identity, element-wise arithmetic.
  - The algebra of sums: linearity, bounds, one-hot sums, invariance under permutation.
- `preprocess.dfy` (`Preprocess`): `_preprocess_slae` and `_preprocess_mi`, with the solver's
  configuration errors. Its properties:
  - `P` is a transition matrix.
  - `H` and `g` are entry by entry what the formulas say.
  - The fixed points of `x = Hx + g` and of `x = Lx + v` are the solutions of `Ax = b` and of
    `Ax = v`.
  - One importance-sampling step is unbiased.
- `walks.dfy` (`Walks`): the two walk workers as functions of the draws.
  - The loop invariants give each walk's result in closed form along the path it follows.
  - The exit the walk takes is the guard that fired.
  - A walk reads at most `max_len` (or `m`) draws.
- `solver.dfy` (`Solver`): the constructor, and `solve_slae` and `invert_matrix` as methods
  with loops.
  - What the loops compute (means of the walk results).
  - What they return when no walk can take a step.
  - Bounds and order-independence of the mean.

Randomness is an oracle. `np.random.choice(n, p=P[i, :])` is replaced by a sequence of draws
handed to each walk. Walk `k` from start index `i` receives `runs[i][k]`, and the walk follows
the path `[i] + runs[i][k]`. The draws are arbitrary indices below `n`. So the properties hold
for every outcome of the sampler, including a draw of a zero-probability index, which is what
the guard at line 33 of the worker checks for.

## Model

| member | source | states |
|---|---|---|
| Solver.NewSolver | src/linear_algebra/mc_solvers.py:97-102 | The constructor succeeds exactly when A has as many rows as columns; otherwise it raises the not-square error. On success it keeps A and b, and n is A's dimension. |
| Preprocess.PreprocessSlae | src/linear_algebra/mc_solvers.py:111-127 | The errors come in the source's order: a missing b first, then a zero on the diagonal, then a b whose length is not n. Preprocessing succeeds exactly when none of these applies. On success H, g and P are n-by-n (g has length n), and P is the row normalisation of \|H\|. |
| Preprocess.PreprocessMi | src/linear_algebra/mc_solvers.py:130-137 | Preprocessing for inversion never fails. L and P are n-by-n, and P is the row normalisation of \|L\|. |
| Preprocess.RowNormalizeIsStochastic | src/linear_algebra/mc_solvers.py:124-127 | Every entry of P is non-negative. P[i][j] is zero exactly when M[i][j] is. A row of P is all zero exactly when the row of M is. Such a row sums to 0, because the guard turns a zero row sum into 1; every other row sums to 1. |
| Preprocess.NormalizeRowIsDistribution | src/linear_algebra/mc_solvers.py:134-137 | One normalised row (the computation shared by both preprocessors) is non-negative and zero exactly where the source row is zero. It sums to 1 unless the source row is all zero, and then it is all zero. |
| Preprocess.NormalizeEntry | src/linear_algebra/mc_solvers.py:124-127 | A single entry of a normalised row is non-negative, and zero exactly when the source entry is zero. |
| Preprocess.SlaeIterationEntries | src/linear_algebra/mc_solvers.py:120-122 | Entry by entry, H[i][j] = delta_ij - gamma A[i][j] / A[i][i]. In particular H[i][i] = 1 - gamma, and g[i] = gamma b[i] / A[i][i]. |
| Preprocess.DiagInverseProduct | src/linear_algebra/mc_solvers.py:120-121 | Entry (i, j) of the product D^-1 A is A[i][j] / A[i][i]. |
| Preprocess.SlaeFixedPoint | src/linear_algebra/mc_solvers.py:120-122 | For gamma != 0, the iteration x = H x + g has exactly the solutions of A x = b as its fixed points. This is the identity that makes the walk estimates estimate x. |
| Preprocess.MiFixedPoint | src/linear_algebra/mc_solvers.py:132 | x = L x + v holds exactly when A x = v, because I - L = A. |
| Preprocess.OneStepUnbiased | src/linear_algebra/mc_solvers.py:30-37 | Take the weight ratio M[i][j] / P[i][j] times v[j] and average it over the transition distribution of row i. The result is exactly (M v)[i], including the indices where P is zero. |
| Walks.SlaeSteps | src/linear_algebra/mc_solvers.py:25-44 | The loop stops after between t and max_len iterations. If it stops without taking a step, W and theta are unchanged and the exit is not the epsilon exit. |
| Walks.SlaeWalk | src/linear_algebra/mc_solvers.py:18-46 | A walk takes at most max_len steps. With max_len = 0, or from a start whose P row is all zero, it returns g[start]. |
| Walks.SlaeStepsClosedForm | src/linear_algebra/mc_solvers.py:25-44 | If the loop invariant holds at iteration t, the outcome is the one the path dictates. W is the product of the ratios H/P along the path. theta is g[j0] plus the sum of W(s) g[j(s)]. Every step taken had non-zero probability and a non-zero row. Every intermediate \|W\| was at least epsilon. The recorded exit is the guard that fired. |
| Walks.SlaeWalkClosedForm | src/linear_algebra/mc_solvers.py:13-46 | The closed form of a whole linear-system walk along [start] + draws. |
| Walks.SlaeWalkUsesFirstDraws | src/linear_algebra/mc_solvers.py:25-30 | A walk consumes at most max_len draws. Two draw sequences that agree on their first max_len draws give the same outcome. |
| Walks.MiSteps | src/linear_algebra/mc_solvers.py:63-74 | The loop stops after between t and m iterations and never takes the epsilon exit. If it takes no step, W and xi are unchanged. |
| Walks.MiWalk | src/linear_algebra/mc_solvers.py:56-76 | xi has length n and at most m steps are taken. With m = 0, or from a start whose P row is all zero, the walk returns the unit vector e_start. |
| Walks.MiStepsClosedForm | src/linear_algebra/mc_solvers.py:63-74 | If the invariant holds at iteration t, W is the product of the ratios L/P along the path. Entry j of xi is the sum of the weights W(s) over the visits s to j. The steps taken were feasible, and the exit is the guard that fired. |
| Walks.MiWalkClosedForm | src/linear_algebra/mc_solvers.py:49-76 | The closed form of a whole inversion walk along [start] + draws, with the initial deposit of 1 at start. |
| Walks.MiWalkUsesFirstDraws | src/linear_algebra/mc_solvers.py:63-67 | An inversion walk consumes at most m draws. Draw sequences that agree on their first m draws give the same outcome. |
| Solver.SolveSlae | src/linear_algebra/mc_solvers.py:155-173 | solve_slae fails exactly when preprocessing fails, and with the same error. Otherwise component i of the result is the mean of the N walk estimates from i. With max_len = 0 the result is g. |
| Solver.SlaeComponent | src/linear_algebra/mc_solvers.py:161-170 | The running total over the N walks, divided by N, is the mean of their estimates. |
| Solver.SlaeComponentWithoutSteps | src/linear_algebra/mc_solvers.py:161-170 | With max_len = 0, or from an index whose P row is all zero, component i of the solution is g[i]. |
| Solver.SlaeComponentBounds | src/linear_algebra/mc_solvers.py:170 | A component lies between any lower and upper bound of its walk estimates. |
| Solver.MeanIsOrderIndependent | src/linear_algebra/mc_solvers.py:163-170 | The mean does not depend on the order in which the walk results arrive. So the parallel and the sequential branches give the same component for the same multiset of results. |
| Solver.MeanOfConstant | src/linear_algebra/mc_solvers.py:170 | The mean of N copies of c is c. |
| Solver.MeanBounds | src/linear_algebra/mc_solvers.py:170 | The mean lies between any lower and upper bound of its values. |
| Solver.InvertMatrix | src/linear_algebra/mc_solvers.py:188-205 | C is n-by-n, and row i is the column-wise mean of the N accumulators of the walks from i. With m = 0, C is the identity. |
| Solver.MiRow | src/linear_algebra/mc_solvers.py:194-202 | The entry-wise running total of the N accumulators, divided by N, is their column-wise mean. |
| Solver.MiRowWithoutSteps | src/linear_algebra/mc_solvers.py:194-202 | With m = 0, or from an index whose P row is all zero, row i of C is e_i. |
| Solver.MeanRowsOfConstant | src/linear_algebra/mc_solvers.py:202 | The column-wise mean of N copies of v is v. |

## Left out

- The sampler: `np.random.choice` becomes the draw oracle described above. Its probability law is not modelled, and neither is numpy's rejection of a `p` that does not sum to 1. The statistical claims are left out as well: unbiasedness of a whole walk, convergence as N grows, and the error tolerances. `Preprocess.OneStepUnbiased` states the one-step identity they rest on.
- The per-process random streams: the model does not say whether pool workers draw independent numbers.
- Parallel execution (`run_parallel`, `multiprocessing`, `tqdm`) is not modelled. Both branches are one ordered list of results, because `pool.imap` keeps the task order. `Solver.MeanIsOrderIndependent` covers any reordering. The `parallel` and `num_processes` arguments are therefore dropped.
- Floating point: arithmetic is exact over the reals. Rounding, overflow, NaN and infinities are not modelled.
- The progress messages printed at lines 128, 138, 171 and 203.
- The cached attributes `self.H`, `self.g`, `self.P_slae`, `self.L` and `self.P_mi` (lines 105-109, 121-127, 132-137). The preprocessors return their results instead of storing them, and `Solver` stays immutable.
- Solver.SolveSlae: requires N > 0. With N = 0, `np.mean` of an empty list returns NaN with a warning, and reals have no NaN. `Solver.InvertMatrix` has the same requirement.
- Solver.NewSolver: A is an n-by-cols array of rows. A `b` given as an `n x 1` column array (its documented shape) is not modelled, nor is an `A` that is not 2-D. A `b` of length other than n is the `RhsShapeMismatch` error that `D_inv @ b` raises.
- `max_len` has no default value of 100 in the model, because every argument is explicit.
- The finance pricers and the benchmarking scripts of the repository are not part of this model.
