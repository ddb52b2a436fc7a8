/** The transition-model builder: turns the operator A (and b) into the
    iteration matrix, the bias vector and the row-normalised transition matrix
    that the random walks sample from. */
module Preprocess {
  import opened Results
  import opened Matrices

  /** The configuration errors the solver raises before any walk runs. */
  datatype SolverError =
    | NotSquare         // A.shape[0] != A.shape[1]
    | MissingRhs        // b is None when a linear system is solved
    | ZeroDiagonal      // some A[i][i] == 0, so D^-1 does not exist
    | RhsShapeMismatch  // D^-1 @ b with len(b) != n

  /** What the linear-system walks read: H = I - gamma D^-1 A, g = gamma D^-1 b, and P. */
  datatype SlaeModel = SlaeModel(h: Matrix, g: Vector, p: Matrix) {
    predicate Valid(n: nat) {
      IsSquare(h, n) && |g| == n && IsSquare(p, n)
    }
  }

  /** What the inversion walks read: L = I - A and P. */
  datatype MiModel = MiModel(l: Matrix, p: Matrix) {
    predicate Valid(n: nat) {
      IsSquare(l, n) && IsSquare(p, n)
    }
  }

  /** Every diagonal entry of A is non-zero, so that D^-1 exists. */
  predicate NonzeroDiagonal(a: Matrix, n: nat)
    requires IsSquare(a, n)
  {
    forall i :: 0 <= i < n ==> a[i][i] != 0.0
  }

  /** D^-1 = diag(1 / A[i][i]). */
  function DiagInverse(a: Matrix, n: nat): (d: Matrix)
    requires IsSquare(a, n) && NonzeroDiagonal(a, n)
    ensures IsSquare(d, n)
  {
    seq(n, i requires 0 <= i < n => seq(n, j requires 0 <= j < n => if i == j then 1.0 / a[i][i] else 0.0))
  }

  /** The division guard applied to the row sums: a zero sum is replaced by 1. */
  function Guard(s: real): (r: real)
    ensures r != 0.0
  {
    if s == 0.0 then 1.0 else s
  }

  /** One row of P: |row[j]| divided by the guarded sum of |row|. */
  function NormalizeRow(row: Vector): (q: Vector)
    ensures |q| == |row|
  {
    var rowAbs := AbsVector(row);
    var s := Guard(Sum(rowAbs));
    seq(|row|, j requires 0 <= j < |row| => rowAbs[j] / s)
  }

  /** Row normalisation of |M|, row by row. */
  function RowNormalize(m: Matrix, n: nat): (p: Matrix)
    requires IsSquare(m, n)
    ensures IsSquare(p, n)
  {
    seq(n, i requires 0 <= i < n => NormalizeRow(m[i]))
  }

  /** The solver's `_preprocess_slae`: the error checks in the source's order, then H, g and P. */
  function PreprocessSlae(a: Matrix, n: nat, b: Option<Vector>, gamma: real): (r: Result<SlaeModel, SolverError>)
    requires IsSquare(a, n)
    ensures b.None? ==> r == Fail(MissingRhs)
    ensures b.Some? && !NonzeroDiagonal(a, n) ==> r == Fail(ZeroDiagonal)
    ensures b.Some? && NonzeroDiagonal(a, n) && |b.value| != n ==> r == Fail(RhsShapeMismatch)
    ensures r.Ok? <==> b.Some? && NonzeroDiagonal(a, n) && |b.value| == n
    ensures r.Ok? ==> r.value.Valid(n) && r.value.p == RowNormalize(r.value.h, n)
  {
    if b.None? then Fail(MissingRhs)
    else if !NonzeroDiagonal(a, n) then Fail(ZeroDiagonal)
    else
      var h := SlaeIteration(a, n, gamma);
      if |b.value| != n then Fail(RhsShapeMismatch)
      else
        var g := SlaeBias(a, n, b.value, gamma);
        Ok(SlaeModel(h, g, RowNormalize(h, n)))
  }

  /** H = I - gamma * (D^-1 @ A). */
  function SlaeIteration(a: Matrix, n: nat, gamma: real): (h: Matrix)
    requires IsSquare(a, n) && NonzeroDiagonal(a, n)
    ensures IsSquare(h, n)
  {
    SubMatrix(Identity(n), ScaleMatrix(gamma, MatMul(DiagInverse(a, n), a, n), n), n)
  }

  /** g = gamma * (D^-1 @ b). */
  function SlaeBias(a: Matrix, n: nat, b: Vector, gamma: real): (g: Vector)
    requires IsSquare(a, n) && NonzeroDiagonal(a, n) && |b| == n
    ensures |g| == n
  {
    ScaleVector(gamma, MatVec(DiagInverse(a, n), b, n))
  }

  /** The solver's `_preprocess_mi`: L = I - A and its transition matrix. It cannot fail. */
  function PreprocessMi(a: Matrix, n: nat): (m: MiModel)
    requires IsSquare(a, n)
    ensures m.Valid(n)
    ensures m.p == RowNormalize(m.l, n)
  {
    var l := SubMatrix(Identity(n), a, n);
    MiModel(l, RowNormalize(l, n))
  }

  // ---------------------------------------------------------------------------
  // Properties of the builder
  // ---------------------------------------------------------------------------

  /** P is a transition matrix: non-negative, zero exactly where M is zero, each
      row summing to 1 unless the source row was all zero, in which case the P
      row is all zero as well. */
  lemma RowNormalizeIsStochastic(m: Matrix, n: nat)
    requires IsSquare(m, n)
    ensures var p := RowNormalize(m, n);
      && (forall i, j :: 0 <= i < n && 0 <= j < n ==> p[i][j] >= 0.0)
      && (forall i, j :: 0 <= i < n && 0 <= j < n ==> (p[i][j] == 0.0 <==> m[i][j] == 0.0))
      && (forall i :: 0 <= i < n ==> (ZeroVector(p[i]) <==> ZeroVector(m[i])))
      && (forall i :: 0 <= i < n && !ZeroVector(m[i]) ==> Sum(p[i]) == 1.0)
      && (forall i :: 0 <= i < n && ZeroVector(m[i]) ==> Sum(p[i]) == 0.0)
  {
    forall i | 0 <= i < n {
      NormalizeRowIsDistribution(m[i]);
    }
  }

  /** A normalised entry is non-negative, and zero exactly where the row's entry is. */
  lemma NormalizeEntry(row: Vector, j: nat)
    requires j < |row|
    ensures NormalizeRow(row)[j] >= 0.0 && (NormalizeRow(row)[j] == 0.0 <==> row[j] == 0.0)
  {
    SumOfNonnegative(AbsVector(row));
    QuotientSign(AbsVector(row)[j], Guard(Sum(AbsVector(row))));
  }

  /** The properties of RowNormalizeIsStochastic for one row. */
  lemma NormalizeRowIsDistribution(row: Vector)
    ensures var q := NormalizeRow(row);
      && (forall j :: 0 <= j < |row| ==> q[j] >= 0.0 && (q[j] == 0.0 <==> row[j] == 0.0))
      && (ZeroVector(q) <==> ZeroVector(row))
      && (!ZeroVector(row) ==> Sum(q) == 1.0)
      && (ZeroVector(row) ==> Sum(q) == 0.0)
  {
    var q := NormalizeRow(row);
    var rowAbs := AbsVector(row);
    var s := Sum(rowAbs);
    SumOfNonnegative(rowAbs);
    assert ZeroVector(rowAbs) <==> ZeroVector(row) by {
      assert forall j :: 0 <= j < |row| ==> (rowAbs[j] == 0.0 <==> row[j] == 0.0);
    }
    forall j | 0 <= j < |row|
      ensures q[j] >= 0.0 && (q[j] == 0.0 <==> row[j] == 0.0)
    {
      NormalizeEntry(row, j);
    }
    if !ZeroVector(row) {
      assert forall k :: 0 <= k < |q| ==> q[k] == rowAbs[k] / s;
      SumDivided(q, rowAbs, s);
      DivSelf(s);
    } else {
      SumOfZeros(q);
    }
  }

  /** A dot product whose left operand is zero outside position i picks out one product. */
  lemma DotOneHot(d: Vector, v: Vector, i: nat)
    requires |d| == |v| && i < |d|
    requires forall k :: 0 <= k < |d| && k != i ==> d[k] == 0.0
    ensures Dot(d, v) == d[i] * v[i]
  {
    SumOneHot(Products(d, v), i);
  }

  /** Row i of D^-1 @ A is row i of A divided by A[i][i]. */
  lemma DiagInverseProduct(a: Matrix, n: nat, i: nat, j: nat)
    requires IsSquare(a, n) && NonzeroDiagonal(a, n) && i < n && j < n
    ensures MatMul(DiagInverse(a, n), a, n)[i][j] == a[i][j] / a[i][i]
  {
    var dInv := DiagInverse(a, n);
    DotOneHot(dInv[i], Column(a, j), i);
  }

  /** Entry i of D^-1 @ v is v[i] divided by A[i][i]. */
  lemma DiagInverseApply(a: Matrix, n: nat, v: Vector, i: nat)
    requires IsSquare(a, n) && NonzeroDiagonal(a, n) && |v| == n && i < n
    ensures MatVec(DiagInverse(a, n), v, n)[i] == v[i] / a[i][i]
  {
    DotOneHot(DiagInverse(a, n)[i], v, i);
  }

  /** One entry of H: H[i][j] = delta_ij - gamma * A[i][j] / A[i][i]. */
  lemma SlaeIterationEntry(a: Matrix, n: nat, gamma: real, i: nat, j: nat)
    requires IsSquare(a, n) && NonzeroDiagonal(a, n) && i < n && j < n
    ensures SlaeIteration(a, n, gamma)[i][j] == (if i == j then 1.0 else 0.0) - gamma * (a[i][j] / a[i][i])
  {
    DiagInverseProduct(a, n, i, j);
  }

  /** One entry of g: g[i] = gamma * b[i] / A[i][i]. */
  lemma SlaeBiasEntry(a: Matrix, n: nat, b: Vector, gamma: real, i: nat)
    requires IsSquare(a, n) && NonzeroDiagonal(a, n) && |b| == n && i < n
    ensures SlaeBias(a, n, b, gamma)[i] == gamma * b[i] / a[i][i]
  {
    DiagInverseApply(a, n, b, i);
  }

  /** Entries of H and g: H[i][j] = delta_ij - gamma * A[i][j] / A[i][i],
      so the diagonal of H is 1 - gamma, and g[i] = gamma * b[i] / A[i][i]. */
  lemma SlaeIterationEntries(a: Matrix, n: nat, b: Vector, gamma: real)
    requires IsSquare(a, n) && NonzeroDiagonal(a, n) && |b| == n
    ensures var m := PreprocessSlae(a, n, Some(b), gamma).value;
      && (forall i, j :: 0 <= i < n && 0 <= j < n ==>
            m.h[i][j] == (if i == j then 1.0 else 0.0) - gamma * (a[i][j] / a[i][i]))
      && (forall i :: 0 <= i < n ==> m.h[i][i] == 1.0 - gamma)
      && (forall i :: 0 <= i < n ==> m.g[i] == gamma * b[i] / a[i][i])
  {
    var h := SlaeIteration(a, n, gamma);
    forall i, j | 0 <= i < n && 0 <= j < n
      ensures h[i][j] == (if i == j then 1.0 else 0.0) - gamma * (a[i][j] / a[i][i])
    {
      SlaeIterationEntry(a, n, gamma, i, j);
    }
    forall i | 0 <= i < n
      ensures h[i][i] == 1.0 - gamma
    {
      DivSelf(a[i][i]);
    }
    forall i | 0 <= i < n
      ensures SlaeBias(a, n, b, gamma)[i] == gamma * b[i] / a[i][i]
    {
      SlaeBiasEntry(a, n, b, gamma, i);
    }
  }

  /** The meaning of H and g: for a non-zero gamma, x is a fixed point of
      x = H x + g exactly when x solves A x = b. */
  lemma SlaeFixedPoint(a: Matrix, n: nat, b: Vector, gamma: real, x: Vector)
    requires IsSquare(a, n) && NonzeroDiagonal(a, n) && |b| == n && |x| == n
    requires gamma != 0.0
    ensures var m := PreprocessSlae(a, n, Some(b), gamma).value;
      AddVector(MatVec(m.h, x, n), m.g) == x <==> MatVec(a, x, n) == b
  {
    var m := PreprocessSlae(a, n, Some(b), gamma).value;
    var lhs := AddVector(MatVec(m.h, x, n), m.g);
    var ax := MatVec(a, x, n);
    forall i | 0 <= i < n
      ensures lhs[i] == x[i] <==> ax[i] == b[i]
    {
      SlaeResidualRow(a, n, b, gamma, x, i);
      ProductZero(gamma / a[i][i], b[i] - ax[i]);
    }
    if ax == b {
      assert forall i :: 0 <= i < n ==> lhs[i] == x[i];
    }
  }

  /** Row i of the fixed-point residual: (H x + g)[i] - x[i] = gamma / A[i][i] * (b - A x)[i]. */
  lemma SlaeResidualRow(a: Matrix, n: nat, b: Vector, gamma: real, x: Vector, i: nat)
    requires IsSquare(a, n) && NonzeroDiagonal(a, n) && |b| == n && |x| == n && i < n
    ensures var m := PreprocessSlae(a, n, Some(b), gamma).value;
      AddVector(MatVec(m.h, x, n), m.g)[i] - x[i] == gamma / a[i][i] * (b[i] - MatVec(a, x, n)[i])
  {
    var h := SlaeIteration(a, n, gamma);
    var g := SlaeBias(a, n, b, gamma);
    var c := gamma / a[i][i];
    var ax := Dot(a[i], x);
    IterationRowDot(a, n, gamma, x, i);
    assert g[i] == c * b[i] by {
      SlaeBiasEntry(a, n, b, gamma, i);
      ProductQuotient(gamma, b[i], a[i][i]);
    }
    Distribute(c, b[i], ax);
    assert AddVector(MatVec(h, x, n), g)[i] - x[i] == c * (b[i] - ax);
  }

  /** (H x)[i] = x[i] - gamma / A[i][i] * (A x)[i]. */
  lemma IterationRowDot(a: Matrix, n: nat, gamma: real, x: Vector, i: nat)
    requires IsSquare(a, n) && NonzeroDiagonal(a, n) && |x| == n && i < n
    ensures Dot(SlaeIteration(a, n, gamma)[i], x) == x[i] - gamma / a[i][i] * Dot(a[i], x)
  {
    var row := SlaeIteration(a, n, gamma)[i];
    var u := Unit(n, i);
    forall k | 0 <= k < n
      ensures row[k] * x[k] == u[k] * x[k] - gamma / a[i][i] * (a[i][k] * x[k])
    {
      IterationRowTerm(a, n, gamma, x, i, k);
    }
    DotLinear(row, u, a[i], x, gamma / a[i][i]);
    DotOneHot(u, x, i);
  }

  lemma IterationRowTerm(a: Matrix, n: nat, gamma: real, x: Vector, i: nat, k: nat)
    requires IsSquare(a, n) && NonzeroDiagonal(a, n) && |x| == n && i < n && k < n
    ensures SlaeIteration(a, n, gamma)[i][k] * x[k] == Unit(n, i)[k] * x[k] - gamma / a[i][i] * (a[i][k] * x[k])
  {
    SlaeIterationEntry(a, n, gamma, i, k);
    ScaledQuotient(gamma, a[i][k], a[i][i]);
    DifferenceTimes(Unit(n, i)[k], gamma / a[i][i], a[i][k], x[k]);
  }

  /** The meaning of L: x = L x + v exactly when A x = v, because I - L = A; the
      inversion walks estimate (I - L)^-1 = A^-1 through this identity. */
  lemma MiFixedPoint(a: Matrix, n: nat, v: Vector, x: Vector)
    requires IsSquare(a, n) && |v| == n && |x| == n
    ensures var m := PreprocessMi(a, n);
      AddVector(MatVec(m.l, x, n), v) == x <==> MatVec(a, x, n) == v
  {
    var m := PreprocessMi(a, n);
    var lx := MatVec(m.l, x, n);
    var ax := MatVec(a, x, n);
    forall i | 0 <= i < n
      ensures lx[i] == x[i] - ax[i]
    {
      forall k | 0 <= k < n
        ensures Products(m.l[i], x)[k] == Products(Unit(n, i), x)[k] - 1.0 * Products(a[i], x)[k]
      {
      }
      SumLinear(Products(m.l[i], x), Products(Unit(n, i), x), Products(a[i], x), 1.0);
      DotOneHot(Unit(n, i), x, i);
    }
    var lhs := AddVector(lx, v);
    if lhs == x {
      forall i | 0 <= i < n ensures ax[i] == v[i] {
        assert lhs[i] == x[i];
      }
    }
  }

  /** The importance-sampling weights of row i: each index j with P[i][j] > 0
      contributes P[i][j] * (M[i][j] / P[i][j]) * v[j]. */
  function SampledTerms(m: Matrix, p: Matrix, n: nat, i: nat, v: Vector): (r: Vector)
    requires IsSquare(m, n) && IsSquare(p, n) && i < n && |v| == n
    ensures |r| == n
  {
    seq(n, j requires 0 <= j < n => if p[i][j] == 0.0 then 0.0 else p[i][j] * (m[i][j] / p[i][j]) * v[j])
  }

  /** One step of a walk is unbiased: averaging the weight ratio M/P times v over
      the transition distribution of row i gives exactly (M v)[i]. */
  lemma OneStepUnbiased(m: Matrix, n: nat, i: nat, v: Vector)
    requires IsSquare(m, n) && i < n && |v| == n
    ensures Sum(SampledTerms(m, RowNormalize(m, n), n, i, v)) == MatVec(m, v, n)[i]
  {
    var t := SampledTerms(m, RowNormalize(m, n), n, i, v);
    forall k | 0 <= k < n
      ensures t[k] == Products(m[i], v)[k]
    {
      SampledTermEntry(m, n, i, v, k);
    }
    assert t == Products(m[i], v);
  }

  /** Term k of the average: P[i][k] * (M[i][k] / P[i][k]) * v[k] is M[i][k] * v[k],
      also where P[i][k] is zero, since then M[i][k] is zero too. */
  lemma SampledTermEntry(m: Matrix, n: nat, i: nat, v: Vector, k: nat)
    requires IsSquare(m, n) && i < n && |v| == n && k < n
    ensures SampledTerms(m, RowNormalize(m, n), n, i, v)[k] == m[i][k] * v[k]
  {
    var p := RowNormalize(m, n);
    NormalizeEntry(m[i], k);
    if p[i][k] != 0.0 {
      MulDivCancel(p[i][k], m[i][k], v[k]);
    }
  }

}
