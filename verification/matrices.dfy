/** Dense real vectors and square matrices as sequences, with the handful of
    numpy operations the solver uses (sum, dot product, matrix product,
    element-wise arithmetic) and the algebraic facts about sums the proofs need. */
module Matrices {

  type Vector = seq<real>
  type Matrix = seq<seq<real>>

  function Abs(x: real): (r: real)
    ensures r >= 0.0
    ensures r == 0.0 <==> x == 0.0
  {
    if x < 0.0 then -x else x
  }

  /** `m` is an n-by-n matrix. */
  predicate IsSquare(m: Matrix, n: nat) {
    |m| == n && forall i :: 0 <= i < n ==> |m[i]| == n
  }

  /** Every entry of `v` is zero (numpy's `np.all(v == 0)`). */
  predicate ZeroVector(v: Vector) {
    forall j :: 0 <= j < |v| ==> v[j] == 0.0
  }

  function Sum(v: Vector): real {
    if |v| == 0 then 0.0 else v[0] + Sum(v[1..])
  }

  function Zeros(n: nat): (v: Vector)
    ensures |v| == n && ZeroVector(v)
  {
    seq(n, _ => 0.0)
  }

  /** The i-th standard basis vector of length n. */
  function Unit(n: nat, i: nat): (v: Vector)
    requires i < n
  {
    seq(n, j => if j == i then 1.0 else 0.0)
  }

  function Identity(n: nat): (m: Matrix)
    ensures IsSquare(m, n)
  {
    seq(n, i requires 0 <= i < n => Unit(n, i))
  }

  function AbsVector(v: Vector): (r: Vector)
    ensures |r| == |v|
  {
    seq(|v|, j requires 0 <= j < |v| => Abs(v[j]))
  }

  /** Element-wise products u[k] * v[k]. */
  function Products(u: Vector, v: Vector): (r: Vector)
    requires |u| == |v|
    ensures |r| == |u|
  {
    seq(|u|, k requires 0 <= k < |u| => u[k] * v[k])
  }

  function Dot(u: Vector, v: Vector): real
    requires |u| == |v|
  {
    Sum(Products(u, v))
  }

  /** Column j of a matrix whose rows all have more than j entries. */
  function Column(m: Matrix, j: nat): (c: Vector)
    requires forall i :: 0 <= i < |m| ==> j < |m[i]|
    ensures |c| == |m|
  {
    seq(|m|, i requires 0 <= i < |m| => m[i][j])
  }

  /** numpy's `x @ y` for n-by-n operands. */
  function MatMul(x: Matrix, y: Matrix, n: nat): (r: Matrix)
    requires IsSquare(x, n) && IsSquare(y, n)
    ensures IsSquare(r, n)
  {
    seq(n, i requires 0 <= i < n => seq(n, j requires 0 <= j < n => Dot(x[i], Column(y, j))))
  }

  /** numpy's `x @ v` for an n-by-n matrix and a length-n vector. */
  function MatVec(x: Matrix, v: Vector, n: nat): (r: Vector)
    requires IsSquare(x, n) && |v| == n
    ensures |r| == n
  {
    seq(n, i requires 0 <= i < n => Dot(x[i], v))
  }

  function ScaleMatrix(c: real, m: Matrix, n: nat): (r: Matrix)
    requires IsSquare(m, n)
    ensures IsSquare(r, n)
  {
    seq(n, i requires 0 <= i < n => seq(n, j requires 0 <= j < n => c * m[i][j]))
  }

  function SubMatrix(x: Matrix, y: Matrix, n: nat): (r: Matrix)
    requires IsSquare(x, n) && IsSquare(y, n)
    ensures IsSquare(r, n)
  {
    seq(n, i requires 0 <= i < n => seq(n, j requires 0 <= j < n => x[i][j] - y[i][j]))
  }

  function AbsMatrix(m: Matrix, n: nat): (r: Matrix)
    requires IsSquare(m, n)
    ensures IsSquare(r, n)
  {
    seq(n, i requires 0 <= i < n => AbsVector(m[i]))
  }

  function ScaleVector(c: real, v: Vector): (r: Vector)
    ensures |r| == |v|
  {
    seq(|v|, k requires 0 <= k < |v| => c * v[k])
  }

  function AddVector(u: Vector, v: Vector): (r: Vector)
    requires |u| == |v|
    ensures |r| == |u|
  {
    seq(|u|, k requires 0 <= k < |u| => u[k] + v[k])
  }

  // ---------------------------------------------------------------------------
  // Small facts of real arithmetic, kept apart so that each is proved in isolation
  // ---------------------------------------------------------------------------

  lemma DivSelf(s: real)
    requires s != 0.0
    ensures s / s == 1.0
  {
  }

  lemma QuotientSign(x: real, c: real)
    requires x >= 0.0 && c > 0.0
    ensures x / c >= 0.0
    ensures x / c == 0.0 <==> x == 0.0
  {
  }

  lemma ScaledQuotient(c: real, x: real, y: real)
    requires y != 0.0
    ensures c * (x / y) == (c / y) * x
  {
  }

  lemma ProductQuotient(c: real, x: real, y: real)
    requires y != 0.0
    ensures c * x / y == (c / y) * x
  {
  }

  lemma Distribute(c: real, x: real, y: real)
    ensures c * (x - y) == c * x - c * y
  {
  }

  lemma DifferenceTimes(u: real, c: real, a: real, x: real)
    ensures (u - c * a) * x == u * x - c * (a * x)
  {
  }

  lemma MulDivCancel(p: real, x: real, y: real)
    requires p != 0.0
    ensures p * (x / p) * y == x * y
  {
  }

  lemma ProductZero(c: real, d: real)
    requires c != 0.0
    ensures c * d == 0.0 <==> d == 0.0
  {
  }

  // ---------------------------------------------------------------------------
  // Facts about Sum
  // ---------------------------------------------------------------------------

  /** A sum of non-negative terms is non-negative, and it is zero exactly when every term is. */
  lemma {:induction false} SumOfNonnegative(v: Vector)
    requires forall k :: 0 <= k < |v| ==> v[k] >= 0.0
    ensures Sum(v) >= 0.0
    ensures Sum(v) == 0.0 <==> ZeroVector(v)
  {
    if |v| > 0 {
      SumOfNonnegative(v[1..]);
      if Sum(v) == 0.0 {
        forall j | 0 <= j < |v| ensures v[j] == 0.0 {
          if j > 0 { assert v[j] == v[1..][j - 1]; }
        }
      }
      if ZeroVector(v) {
        assert ZeroVector(v[1..]);
      }
    }
  }

  /** Sum distributes over a term-wise combination u = v - c * w. */
  lemma {:induction false} SumLinear(u: Vector, v: Vector, w: Vector, c: real)
    requires |u| == |v| == |w|
    requires forall k :: 0 <= k < |u| ==> u[k] == v[k] - c * w[k]
    ensures Sum(u) == Sum(v) - c * Sum(w)
  {
    if |u| > 0 {
      SumLinear(u[1..], v[1..], w[1..], c);
    }
  }
  /** A row whose products with x are those of u minus c times those of w has dot product Dot(u, x) - c * Dot(w, x). */
  lemma DotLinear(r: Vector, u: Vector, w: Vector, x: Vector, c: real)
    requires |r| == |u| == |w| == |x|
    requires forall k :: 0 <= k < |r| ==> r[k] * x[k] == u[k] * x[k] - c * (w[k] * x[k])
    ensures Dot(r, x) == Dot(u, x) - c * Dot(w, x)
  {
    SumLinear(Products(r, x), Products(u, x), Products(w, x), c);
  }


  /** Dividing every term by the same non-zero c divides the sum by c. */
  lemma {:induction false} SumDivided(u: Vector, v: Vector, c: real)
    requires c != 0.0
    requires |u| == |v|
    requires forall k :: 0 <= k < |u| ==> u[k] == v[k] / c
    ensures Sum(u) == Sum(v) / c
  {
    if |u| > 0 {
      SumDivided(u[1..], v[1..], c);
      assert Sum(u) == v[0] / c + Sum(v[1..]) / c;
    }
  }

  /** A sequence that is zero outside position i sums to its entry at i. */
  lemma {:induction false} SumOneHot(v: Vector, i: nat)
    requires i < |v|
    requires forall k :: 0 <= k < |v| && k != i ==> v[k] == 0.0
    ensures Sum(v) == v[i]
  {
    if i == 0 {
      assert ZeroVector(v[1..]) by {
        forall k | 0 <= k < |v[1..]| ensures v[1..][k] == 0.0 {
          assert v[1..][k] == v[k + 1];
        }
      }
      SumOfZeros(v[1..]);
    } else {
      SumOneHot(v[1..], i - 1);
    }
  }

  lemma {:induction false} SumOfZeros(v: Vector)
    requires ZeroVector(v)
    ensures Sum(v) == 0.0
  {
    if |v| > 0 {
      SumOfZeros(v[1..]);
    }
  }

  /** Every term equal to c: the sum is |v| * c. */
  lemma {:induction false} SumOfConstant(v: Vector, c: real)
    requires forall k :: 0 <= k < |v| ==> v[k] == c
    ensures Sum(v) == (|v| as real) * c
  {
    if |v| > 0 {
      SumOfConstant(v[1..], c);
    }
  }

  /** Appending a term adds it to the sum: the running total of a left-to-right loop. */
  lemma {:induction false} SumAppend(v: Vector, x: real)
    ensures Sum(v + [x]) == Sum(v) + x
  {
    if |v| > 0 {
      assert (v + [x])[1..] == v[1..] + [x];
      SumAppend(v[1..], x);
    } else {
      assert v + [x] == [x];
    }
  }

  /** Terms between lo and hi give a sum between |v| * lo and |v| * hi. */
  lemma {:induction false} SumBounds(v: Vector, lo: real, hi: real)
    requires forall k :: 0 <= k < |v| ==> lo <= v[k] <= hi
    ensures (|v| as real) * lo <= Sum(v) <= (|v| as real) * hi
  {
    if |v| > 0 {
      SumBounds(v[1..], lo, hi);
    }
  }

  /** Removing the term at position k takes exactly that term out of the sum. */
  lemma {:induction false} SumRemove(v: Vector, k: nat)
    requires k < |v|
    ensures Sum(v) == v[k] + Sum(v[..k] + v[k + 1..])
  {
    if k > 0 {
      SumRemove(v[1..], k - 1);
      assert v[1..][..k - 1] + v[1..][k..] == (v[..k] + v[k + 1..])[1..];
    } else {
      assert v[..0] + v[1..] == v[1..];
    }
  }

  /** The sum does not depend on the order of the terms. */
  lemma {:induction false} SumPermutation(u: Vector, v: Vector)
    requires multiset(u) == multiset(v)
    ensures Sum(u) == Sum(v)
    decreases |u|
  {
    if |u| > 0 {
      assert u[0] in multiset(v);
      var k :| 0 <= k < |v| && v[k] == u[0];
      var rest := v[..k] + v[k + 1..];
      assert v == v[..k] + [v[k]] + v[k + 1..];
      assert u == [u[0]] + u[1..];
      calc {
        multiset(u[1..]);
        multiset(u) - multiset{u[0]};
        multiset(v) - multiset{v[k]};
        multiset(v[..k]) + multiset(v[k + 1..]);
        multiset(rest);
      }
      assert |rest| < |v|;
      SumPermutation(u[1..], rest);
      SumRemove(v, k);
    } else {
      assert |v| == 0;
    }
  }
}
