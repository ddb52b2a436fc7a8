/** `MonteCarloLinearSolver`: construction, and the two public operations that
    preprocess A, run N walks from every start index and average their results.
    Each walk's draws come from an oracle: `runs[i][k]` is the sequence of
    indices the sampler returns to walk k started at index i. */
module Solver {
  import opened Results
  import opened Matrices
  import opened Preprocess
  import opened Walks

  /** The solver's state after construction: A, the optional right-hand side b, and n. */
  datatype Solver = Solver(a: Matrix, b: Option<Vector>, n: nat)
  {
    /** A is n-by-n. */
    predicate Valid() {
      IsSquare(a, n)
    }
  }

  /** `__init__`: A arrives as a rows-by-cols array; the solver is built exactly when
      A is square, and then n is its dimension. */
  function NewSolver(a: Matrix, cols: nat, b: Option<Vector>): (r: Result<Solver, SolverError>)
    requires forall i :: 0 <= i < |a| ==> |a[i]| == cols
    ensures r.Ok? <==> |a| == cols
    ensures r.Fail? ==> r.error == NotSquare
    ensures r.Ok? ==> r.value.Valid() && r.value.n == |a| && r.value.a == a && r.value.b == b
  {
    if |a| != cols then Fail(NotSquare) else Ok(Solver(a, b, |a|))
  }

  // ---------------------------------------------------------------------------
  // Averaging
  // ---------------------------------------------------------------------------

  /** `np.mean` of a non-empty list of numbers. */
  function Mean(xs: Vector): real
    requires |xs| > 0
  {
    Sum(xs) / (|xs| as real)
  }

  /** `np.mean(results, axis=0)`: the column-wise mean of a non-empty list of length-n vectors. */
  function MeanRows(vs: seq<Vector>, n: nat): (r: Vector)
    requires |vs| > 0 && forall k :: 0 <= k < |vs| ==> |vs[k]| == n
    ensures |r| == n
  {
    seq(n, j requires 0 <= j < n => Mean(Column(vs, j)))
  }

  /** The mean of N copies of c is c. */
  lemma MeanOfConstant(xs: Vector, c: real)
    requires |xs| > 0 && forall k :: 0 <= k < |xs| ==> xs[k] == c
    ensures Mean(xs) == c
  {
    SumOfConstant(xs, c);
  }

  /** The mean lies between any lower and upper bound of the values. */
  lemma MeanBounds(xs: Vector, lo: real, hi: real)
    requires |xs| > 0 && forall k :: 0 <= k < |xs| ==> lo <= xs[k] <= hi
    ensures lo <= Mean(xs) <= hi
  {
    SumBounds(xs, lo, hi);
    var c := |xs| as real;
    assert c * lo <= Sum(xs) <= c * hi;
    QuotientBounds(Sum(xs), c, lo, hi);
  }

  /** Dividing c * lo <= s <= c * hi by c > 0. */
  lemma QuotientBounds(s: real, c: real, lo: real, hi: real)
    requires c > 0.0 && c * lo <= s <= c * hi
    ensures lo <= s / c <= hi
  {
  }

  /** The mean does not depend on the order in which the results arrive, so a
      pool that returns them in another order gives the same component. */
  lemma MeanIsOrderIndependent(xs: Vector, ys: Vector)
    requires |xs| > 0 && multiset(xs) == multiset(ys)
    ensures |ys| == |xs| && Mean(xs) == Mean(ys)
  {
    assert |xs| == |multiset(xs)| == |multiset(ys)| == |ys|;
    SumPermutation(xs, ys);
  }

  /** The column-wise mean of N copies of v is v. */
  lemma MeanRowsOfConstant(vs: seq<Vector>, n: nat, v: Vector)
    requires |vs| > 0 && |v| == n && forall k :: 0 <= k < |vs| ==> vs[k] == v
    ensures MeanRows(vs, n) == v
  {
    forall j | 0 <= j < n
      ensures MeanRows(vs, n)[j] == v[j]
    {
      MeanOfConstant(Column(vs, j), v[j]);
    }
  }

  // ---------------------------------------------------------------------------
  // The sample oracle
  // ---------------------------------------------------------------------------

  /** Every draw sequence names states below n and has at least `len` draws. */
  predicate Draws(draws: seq<seq<nat>>, n: nat, len: nat) {
    forall k :: 0 <= k < |draws| ==> InRange(draws[k], n) && len <= |draws[k]|
  }

  /** One list of `count` draw sequences per start index 0..n-1. */
  predicate ValidRuns(runs: seq<seq<seq<nat>>>, n: nat, count: nat, len: nat) {
    && |runs| == n
    && forall i :: 0 <= i < n ==> |runs[i]| == count && Draws(runs[i], n, len)
  }

  /** The estimates theta of the linear-system walks started at i, one per draw sequence. */
  function SlaeResults(model: SlaeModel, n: nat, eps: real, maxLen: nat, i: nat, draws: seq<seq<nat>>): (r: Vector)
    requires model.Valid(n) && i < n && Draws(draws, n, maxLen)
    ensures |r| == |draws|
  {
    seq(|draws|, k requires 0 <= k < |draws| => SlaeWalk(model, n, eps, maxLen, i, draws[k]).theta)
  }

  /** The accumulators xi of the inversion walks started at i, one per draw sequence. */
  function MiResults(model: MiModel, n: nat, len: nat, i: nat, draws: seq<seq<nat>>): (r: seq<Vector>)
    requires model.Valid(n) && i < n && Draws(draws, n, len)
    ensures |r| == |draws| && forall k :: 0 <= k < |r| ==> |r[k]| == n
  {
    seq(|draws|, k requires 0 <= k < |draws| => MiWalk(model, n, len, i, draws[k]).xi)
  }

  // ---------------------------------------------------------------------------
  // solve_slae
  // ---------------------------------------------------------------------------

  /** `solve_slae`: preprocess (failing as preprocessing fails), then set x[i] to the
      mean of the N walk estimates started at i, for i = 0..n-1. */
  method SolveSlae(s: Solver, gamma: real, eps: real, count: nat, maxLen: nat, runs: seq<seq<seq<nat>>>)
    returns (r: Result<Vector, SolverError>)
    requires s.Valid() && count > 0 && ValidRuns(runs, s.n, count, maxLen)
    ensures r.Fail? <==> PreprocessSlae(s.a, s.n, s.b, gamma).Fail?
    ensures r.Fail? ==> r.error == PreprocessSlae(s.a, s.n, s.b, gamma).error
    ensures r.Ok? ==> |r.value| == s.n
    ensures r.Ok? ==> forall i :: 0 <= i < s.n ==>
      r.value[i] == Mean(SlaeResults(PreprocessSlae(s.a, s.n, s.b, gamma).value, s.n, eps, maxLen, i, runs[i]))
    ensures r.Ok? && maxLen == 0 ==> r.value == PreprocessSlae(s.a, s.n, s.b, gamma).value.g
  {
    var pre := PreprocessSlae(s.a, s.n, s.b, gamma);
    if pre.Fail? {
      return Fail(pre.error);
    }
    var model := pre.value;
    var x := Zeros(s.n);
    var i := 0;
    while i < s.n
      invariant 0 <= i <= s.n && |x| == s.n
      invariant forall j :: 0 <= j < i ==> x[j] == Mean(SlaeResults(model, s.n, eps, maxLen, j, runs[j]))
    {
      var xi := SlaeComponent(model, s.n, eps, maxLen, i, runs[i]);
      x := x[i := xi];
      i := i + 1;
    }
    if maxLen == 0 {
      forall j | 0 <= j < s.n
        ensures x[j] == model.g[j]
      {
        SlaeComponentWithoutSteps(model, s.n, eps, maxLen, j, runs[j]);
      }
    }
    return Ok(x);
  }

  /** One component of `solve_slae`: run the N walks from i in order, add up their
      estimates, and divide by N. */
  method SlaeComponent(model: SlaeModel, n: nat, eps: real, maxLen: nat, i: nat, draws: seq<seq<nat>>)
    returns (x: real)
    requires model.Valid(n) && i < n && |draws| > 0 && Draws(draws, n, maxLen)
    ensures x == Mean(SlaeResults(model, n, eps, maxLen, i, draws))
  {
    var results := SlaeResults(model, n, eps, maxLen, i, draws);
    var total := 0.0;
    var k := 0;
    while k < |draws|
      invariant 0 <= k <= |draws|
      invariant total == Sum(results[..k])
    {
      var theta := SlaeWalk(model, n, eps, maxLen, i, draws[k]).theta;
      assert results[..k + 1] == results[..k] + [theta];
      SumAppend(results[..k], theta);
      total := total + theta;
      k := k + 1;
    }
    assert results[..|draws|] == results;
    x := total / (|draws| as real);
  }

  /** A component whose walks take no transition is g[i]: with max_len = 0, or when
      row i of P is all zero, solve_slae returns g[i] for that component. */
  lemma SlaeComponentWithoutSteps(model: SlaeModel, n: nat, eps: real, maxLen: nat, i: nat, draws: seq<seq<nat>>)
    requires model.Valid(n) && i < n && |draws| > 0 && Draws(draws, n, maxLen)
    requires maxLen == 0 || ZeroVector(model.p[i])
    ensures Mean(SlaeResults(model, n, eps, maxLen, i, draws)) == model.g[i]
  {
    MeanOfConstant(SlaeResults(model, n, eps, maxLen, i, draws), model.g[i]);
  }

  /** A component of the solution lies between the smallest and the largest of its walk
      estimates, each of which is the path sum g[j0] + sum of W(s) * g[j(s)] of its walk. */
  lemma SlaeComponentBounds(model: SlaeModel, n: nat, eps: real, maxLen: nat, i: nat, draws: seq<seq<nat>>,
                            lo: real, hi: real)
    requires model.Valid(n) && i < n && |draws| > 0 && Draws(draws, n, maxLen)
    requires forall k :: 0 <= k < |draws| ==> lo <= SlaeWalk(model, n, eps, maxLen, i, draws[k]).theta <= hi
    ensures lo <= Mean(SlaeResults(model, n, eps, maxLen, i, draws)) <= hi
  {
    MeanBounds(SlaeResults(model, n, eps, maxLen, i, draws), lo, hi);
  }

  // ---------------------------------------------------------------------------
  // invert_matrix
  // ---------------------------------------------------------------------------

  /** `invert_matrix`: preprocess, then set row i of C to the column-wise mean of the
      N accumulators of the walks started at i, for i = 0..n-1. */
  method InvertMatrix(s: Solver, count: nat, len: nat, runs: seq<seq<seq<nat>>>) returns (c: Matrix)
    requires s.Valid() && count > 0 && ValidRuns(runs, s.n, count, len)
    ensures IsSquare(c, s.n)
    ensures forall i :: 0 <= i < s.n ==>
      c[i] == MeanRows(MiResults(PreprocessMi(s.a, s.n), s.n, len, i, runs[i]), s.n)
    ensures len == 0 ==> c == Identity(s.n)
  {
    var model := PreprocessMi(s.a, s.n);
    c := seq(s.n, i => Zeros(s.n));
    var i := 0;
    while i < s.n
      invariant 0 <= i <= s.n && IsSquare(c, s.n)
      invariant forall j :: 0 <= j < i ==> c[j] == MeanRows(MiResults(model, s.n, len, j, runs[j]), s.n)
    {
      var row := MiRow(model, s.n, len, i, runs[i]);
      c := c[i := row];
      i := i + 1;
    }
    if len == 0 {
      forall j | 0 <= j < s.n
        ensures c[j] == Identity(s.n)[j]
      {
        MiRowWithoutSteps(model, s.n, len, j, runs[j]);
      }
    }
  }

  /** One row of `invert_matrix`: run the N walks from i in order, add up their
      accumulators entry by entry, and divide by N. */
  method MiRow(model: MiModel, n: nat, len: nat, i: nat, draws: seq<seq<nat>>) returns (row: Vector)
    requires model.Valid(n) && i < n && |draws| > 0 && Draws(draws, n, len)
    ensures row == MeanRows(MiResults(model, n, len, i, draws), n)
  {
    var results := MiResults(model, n, len, i, draws);
    var total := Zeros(n);
    var k := 0;
    while k < |draws|
      invariant 0 <= k <= |draws| && |total| == n
      invariant forall j :: 0 <= j < n ==> total[j] == Sum(Column(results[..k], j))
    {
      var xi := MiWalk(model, n, len, i, draws[k]).xi;
      forall j | 0 <= j < n
        ensures total[j] + xi[j] == Sum(Column(results[..k + 1], j))
      {
        assert results[..k + 1] == results[..k] + [xi];
        ColumnAppend(results[..k], xi, j);
      }
      total := AddVector(total, xi);
      k := k + 1;
    }
    assert results[..|draws|] == results;
    row := seq(n, j requires 0 <= j < n => total[j] / (|draws| as real));
  }

  /** Appending a vector appends its entry j to column j, and adds it to the column's sum. */
  lemma ColumnAppend(vs: seq<Vector>, v: Vector, j: nat)
    requires (forall k :: 0 <= k < |vs| ==> j < |vs[k]|) && j < |v|
    ensures Sum(Column(vs + [v], j)) == Sum(Column(vs, j)) + v[j]
  {
    assert Column(vs + [v], j) == Column(vs, j) + [v[j]];
    SumAppend(Column(vs, j), v[j]);
  }

  /** With walk length m = 0, or when row i of P is all zero, every inversion walk from
      i returns the unit vector e_i, so row i of C is e_i; with m = 0, C is the identity. */
  lemma MiRowWithoutSteps(model: MiModel, n: nat, len: nat, i: nat, draws: seq<seq<nat>>)
    requires model.Valid(n) && i < n && |draws| > 0 && Draws(draws, n, len)
    requires len == 0 || ZeroVector(model.p[i])
    ensures MeanRows(MiResults(model, n, len, i, draws), n) == Unit(n, i)
  {
    MeanRowsOfConstant(MiResults(model, n, len, i, draws), n, Unit(n, i));
  }
}
