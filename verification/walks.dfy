/** The two random-walk workers. The sampler `np.random.choice(n, p=P[i, :])`
    becomes an oracle: the walk is handed the sequence of indices the sampler
    returns, one per iteration that reaches the sampling call. A walk started at
    `start` with draws `samples` follows the path `[start] + samples`: iteration
    t moves from `path[t]` to `path[t + 1]`. */
module Walks {
  import opened Matrices
  import opened Preprocess

  /** Why a walk stopped: the loop's four exits, named. */
  datatype Stop =
    | LengthReached    // the loop ran all of its iterations
    | Absorbed         // the current row of P is all zero
    | ZeroProbability  // the sampled transition has probability zero
    | BelowEpsilon     // |W| fell below epsilon (linear-system walk only)

  /** The final state of a linear-system walk; `theta` is what the worker returns. */
  datatype SlaeOutcome = SlaeOutcome(theta: real, weight: real, steps: nat, stop: Stop)

  /** The final state of an inversion walk; `xi` is what the worker returns. */
  datatype MiOutcome = MiOutcome(xi: Vector, weight: real, steps: nat, stop: Stop)

  /** Every index on the path names one of the n states. */
  predicate InRange(path: seq<nat>, n: nat) {
    forall s :: 0 <= s < |path| ==> path[s] < n
  }

  /** The entry M[j(s)][j(s+1)] of an n-by-n matrix read by transition s + 1 of the path. */
  function StepEntry(m: Matrix, n: nat, path: seq<nat>, s: nat): real
    requires IsSquare(m, n) && InRange(path, n) && s + 1 < |path|
  {
    m[path[s]][path[s + 1]]
  }

  /** The weight after transition s + 1: W * M[j(s)][j(s+1)] / P[j(s)][j(s+1)]. */
  function NextWeight(m: Matrix, p: Matrix, n: nat, path: seq<nat>, s: nat, w: real): real
    requires IsSquare(m, n) && IsSquare(p, n) && InRange(path, n) && s + 1 < |path|
    requires StepEntry(p, n, path, s) != 0.0
  {
    w * StepEntry(m, n, path, s) / StepEntry(p, n, path, s)
  }

  /** The estimate after transition t + 1 from state (w, theta): theta + W' * g[j(t+1)]. */
  function NextEstimate(model: SlaeModel, n: nat, path: seq<nat>, t: nat, w: real, theta: real): real
    requires model.Valid(n) && InRange(path, n) && t + 1 < |path|
    requires StepEntry(model.p, n, path, t) != 0.0
  {
    theta + NextWeight(model.h, model.p, n, path, t, w) * model.g[path[t + 1]]
  }

  /** Each of the first t transitions of the path has non-zero probability. */
  predicate Feasible(p: Matrix, n: nat, path: seq<nat>, t: nat)
    requires IsSquare(p, n) && InRange(path, n) && t < |path|
  {
    forall s :: 0 <= s < t ==> StepEntry(p, n, path, s) != 0.0
  }

  /** No state among the first k of the path has an all-zero row of P. */
  predicate NotAbsorbedBefore(p: Matrix, n: nat, path: seq<nat>, k: nat)
    requires IsSquare(p, n) && InRange(path, n) && k < |path|
  {
    forall s :: 0 <= s < k ==> !ZeroVector(p[path[s]])
  }

  /** The exit taken after k transitions is the one the loop's guards select. */
  predicate ExitJustified(p: Matrix, n: nat, limit: nat, path: seq<nat>, k: nat, stop: Stop)
    requires IsSquare(p, n) && InRange(path, n) && limit < |path| && k <= limit
  {
    match stop
    case LengthReached => k == limit
    case Absorbed => k < limit && ZeroVector(p[path[k]])
    case ZeroProbability => k < limit && !ZeroVector(p[path[k]]) && p[path[k]][path[k + 1]] == 0.0
    case BelowEpsilon => 0 < k
  }

  /** The importance-sampling weight after t transitions:
      the product of M[j(s-1)][j(s)] / P[j(s-1)][j(s)] for s = 1..t. */
  function PathWeight(m: Matrix, p: Matrix, n: nat, path: seq<nat>, t: nat): real
    requires IsSquare(m, n) && IsSquare(p, n) && InRange(path, n) && t < |path|
    requires Feasible(p, n, path, t)
  {
    if t == 0 then 1.0
    else NextWeight(m, p, n, path, t - 1, PathWeight(m, p, n, path, t - 1))
  }

  /** The linear-system estimate after t transitions: g[j0] + sum of W(s) * g[j(s)] for s = 1..t. */
  function PathEstimate(model: SlaeModel, n: nat, path: seq<nat>, t: nat): real
    requires model.Valid(n) && InRange(path, n) && t < |path| && Feasible(model.p, n, path, t)
  {
    if t == 0 then model.g[path[0]]
    else PathEstimate(model, n, path, t - 1) + PathWeight(model.h, model.p, n, path, t) * model.g[path[t]]
  }

  /** Entry j of the inversion accumulator after t transitions: the sum of W(s)
      over the s <= t whose state j(s) is j. */
  function Deposits(model: MiModel, n: nat, path: seq<nat>, t: nat, j: nat): real
    requires model.Valid(n) && InRange(path, n) && t < |path| && Feasible(model.p, n, path, t)
  {
    (if t == 0 then 0.0 else Deposits(model, n, path, t - 1, j))
      + (if path[t] == j then PathWeight(model.l, model.p, n, path, t) else 0.0)
  }

  // ---------------------------------------------------------------------------
  // Linear-system walk
  // ---------------------------------------------------------------------------

  /** The loop of the linear-system worker from iteration t on, at state path[t]
      with weight w and estimate theta. */
  function SlaeSteps(model: SlaeModel, n: nat, eps: real, maxLen: nat, path: seq<nat>,
                     t: nat, w: real, theta: real): (o: SlaeOutcome)
    requires model.Valid(n) && InRange(path, n) && maxLen < |path| && t <= maxLen
    ensures t <= o.steps <= maxLen
    ensures o.steps == t ==> o.theta == theta && o.weight == w && o.stop != BelowEpsilon
    decreases maxLen - t
  {
    if t == maxLen then SlaeOutcome(theta, w, t, LengthReached)
    else if ZeroVector(model.p[path[t]]) then SlaeOutcome(theta, w, t, Absorbed)
    else if StepEntry(model.p, n, path, t) == 0.0 then SlaeOutcome(theta, w, t, ZeroProbability)
    else
      var w' := NextWeight(model.h, model.p, n, path, t, w);
      var theta' := NextEstimate(model, n, path, t, w, theta);
      if Abs(w') < eps then SlaeOutcome(theta', w', t + 1, BelowEpsilon)
      else SlaeSteps(model, n, eps, maxLen, path, t + 1, w', theta')
  }

  /** `_slae_walk_worker`: start at `start` with W = 1 and theta = g[start]. */
  function SlaeWalk(model: SlaeModel, n: nat, eps: real, maxLen: nat, start: nat, samples: seq<nat>): (o: SlaeOutcome)
    requires model.Valid(n) && start < n && InRange(samples, n) && maxLen <= |samples|
    ensures o.steps <= maxLen
    ensures maxLen == 0 || ZeroVector(model.p[start]) ==> o.steps == 0 && o.theta == model.g[start]
  {
    SlaeSteps(model, n, eps, maxLen, [start] + samples, 0, 1.0, model.g[start])
  }

  /** The outcome o is the one the linear-system loop reaches along `path`: W and
      theta are the path product and the path sum after o.steps transitions, no
      guard fired before then, and the recorded exit is the guard that fired. */
  predicate SlaeTrace(model: SlaeModel, n: nat, eps: real, maxLen: nat, path: seq<nat>, o: SlaeOutcome)
    requires model.Valid(n) && InRange(path, n) && maxLen < |path| && o.steps <= maxLen
  {
    && Feasible(model.p, n, path, o.steps)
    && o.weight == PathWeight(model.h, model.p, n, path, o.steps)
    && o.theta == PathEstimate(model, n, path, o.steps)
    && NotAbsorbedBefore(model.p, n, path, o.steps)
    && (forall s :: 0 < s < o.steps ==> Abs(PathWeight(model.h, model.p, n, path, s)) >= eps)
    && ExitJustified(model.p, n, maxLen, path, o.steps, o.stop)
    && (o.stop == BelowEpsilon <==> 0 < o.steps && Abs(o.weight) < eps)
  }

  /** What holds of the linear-system loop at the top of iteration t: the path so
      far was feasible, no guard has fired, and W and theta are in closed form. */
  predicate SlaeInvariant(model: SlaeModel, n: nat, eps: real, maxLen: nat, path: seq<nat>, t: nat, w: real, theta: real)
    requires model.Valid(n) && InRange(path, n) && maxLen < |path| && t <= maxLen
  {
    && Feasible(model.p, n, path, t)
    && NotAbsorbedBefore(model.p, n, path, t)
    && (forall s :: 0 < s <= t ==> Abs(PathWeight(model.h, model.p, n, path, s)) >= eps)
    && w == PathWeight(model.h, model.p, n, path, t)
    && theta == PathEstimate(model, n, path, t)
  }

  /** Along the path the walk follows, W and theta are the path product and the
      path sum, and the walk stops at the first step where a guard fires. */
  lemma {:induction false} SlaeStepsClosedForm(model: SlaeModel, n: nat, eps: real, maxLen: nat, path: seq<nat>,
                                              t: nat, w: real, theta: real)
    requires model.Valid(n) && InRange(path, n) && maxLen < |path| && t <= maxLen
    requires SlaeInvariant(model, n, eps, maxLen, path, t, w, theta)
    ensures SlaeTrace(model, n, eps, maxLen, path, SlaeSteps(model, n, eps, maxLen, path, t, w, theta))
    decreases maxLen - t
  {
    if t == maxLen || ZeroVector(model.p[path[t]]) || StepEntry(model.p, n, path, t) == 0.0 {
      SlaeExit(model, n, eps, maxLen, path, t, w, theta);
    } else if Abs(NextWeight(model.h, model.p, n, path, t, w)) < eps {
      SlaeStopsBelow(model, n, eps, maxLen, path, t, w, theta);
    } else {
      var w' := NextWeight(model.h, model.p, n, path, t, w);
      SlaeKeepsInvariant(model, n, eps, maxLen, path, t, w, theta);
      SlaeStepsClosedForm(model, n, eps, maxLen, path, t + 1, w', NextEstimate(model, n, path, t, w, theta));
      SlaeCarriesOn(model, n, eps, maxLen, path, t, w, theta);
    }
  }

  /** An iteration whose guards stop the loop before sampling ends the walk where it stands. */
  lemma SlaeExit(model: SlaeModel, n: nat, eps: real, maxLen: nat, path: seq<nat>, t: nat, w: real, theta: real)
    requires model.Valid(n) && InRange(path, n) && maxLen < |path| && t <= maxLen
    requires SlaeInvariant(model, n, eps, maxLen, path, t, w, theta)
    requires t == maxLen || ZeroVector(model.p[path[t]]) || StepEntry(model.p, n, path, t) == 0.0
    ensures SlaeTrace(model, n, eps, maxLen, path, SlaeSteps(model, n, eps, maxLen, path, t, w, theta))
  {
  }

  /** Taking transition t + 1 extends the feasible, unabsorbed prefix and the closed forms. */
  lemma SlaeExtend(model: SlaeModel, n: nat, eps: real, maxLen: nat, path: seq<nat>, t: nat, w: real, theta: real)
    requires model.Valid(n) && InRange(path, n) && maxLen < |path| && t < maxLen
    requires SlaeInvariant(model, n, eps, maxLen, path, t, w, theta)
    requires !ZeroVector(model.p[path[t]]) && StepEntry(model.p, n, path, t) != 0.0
    ensures Feasible(model.p, n, path, t + 1)
    ensures NotAbsorbedBefore(model.p, n, path, t + 1)
    ensures NextWeight(model.h, model.p, n, path, t, w) == PathWeight(model.h, model.p, n, path, t + 1)
    ensures NextEstimate(model, n, path, t, w, theta) == PathEstimate(model, n, path, t + 1)
  {
    PrefixExtend(model.p, n, path, t);
    WeightStep(model.h, model.p, n, path, t, w);
    EstimateStep(model, n, path, t, w, theta);
  }

  /** A feasible, unabsorbed prefix of t transitions extends by a transition that is itself possible. */
  lemma PrefixExtend(p: Matrix, n: nat, path: seq<nat>, t: nat)
    requires IsSquare(p, n) && InRange(path, n) && t + 1 < |path|
    requires Feasible(p, n, path, t) && NotAbsorbedBefore(p, n, path, t)
    requires !ZeroVector(p[path[t]]) && StepEntry(p, n, path, t) != 0.0
    ensures Feasible(p, n, path, t + 1) && NotAbsorbedBefore(p, n, path, t + 1)
  {
  }

  /** One more transition multiplies the path weight by M/P. */
  lemma WeightStep(m: Matrix, p: Matrix, n: nat, path: seq<nat>, t: nat, w: real)
    requires IsSquare(m, n) && IsSquare(p, n) && InRange(path, n) && t + 1 < |path| && Feasible(p, n, path, t + 1)
    requires w == PathWeight(m, p, n, path, t)
    ensures NextWeight(m, p, n, path, t, w) == PathWeight(m, p, n, path, t + 1)
  {
  }

  /** One more transition adds W(t+1) * g[j(t+1)] to the path sum. */
  lemma EstimateStep(model: SlaeModel, n: nat, path: seq<nat>, t: nat, w: real, theta: real)
    requires model.Valid(n) && InRange(path, n) && t + 1 < |path| && Feasible(model.p, n, path, t + 1)
    requires w == PathWeight(model.h, model.p, n, path, t) && theta == PathEstimate(model, n, path, t)
    ensures NextEstimate(model, n, path, t, w, theta) == PathEstimate(model, n, path, t + 1)
  {
    WeightStep(model.h, model.p, n, path, t, w);
  }

  /** A transition whose new weight is below epsilon ends the walk, in closed form. */
  lemma SlaeStopsBelow(model: SlaeModel, n: nat, eps: real, maxLen: nat, path: seq<nat>, t: nat, w: real, theta: real)
    requires model.Valid(n) && InRange(path, n) && maxLen < |path| && t < maxLen
    requires SlaeInvariant(model, n, eps, maxLen, path, t, w, theta)
    requires !ZeroVector(model.p[path[t]]) && StepEntry(model.p, n, path, t) != 0.0
    requires Abs(NextWeight(model.h, model.p, n, path, t, w)) < eps
    ensures SlaeTrace(model, n, eps, maxLen, path, SlaeSteps(model, n, eps, maxLen, path, t, w, theta))
  {
    SlaeExtend(model, n, eps, maxLen, path, t, w, theta);
    var w' := NextWeight(model.h, model.p, n, path, t, w);
    var o := SlaeOutcome(NextEstimate(model, n, path, t, w, theta), w', t + 1, BelowEpsilon);
    assert SlaeTrace(model, n, eps, maxLen, path, o);
    SlaeStepBelow(model, n, eps, maxLen, path, t, w, theta);
    SlaeTraceSame(model, n, eps, maxLen, path, o, SlaeSteps(model, n, eps, maxLen, path, t, w, theta));
  }

  /** A transition that keeps the weight at or above epsilon keeps the loop invariant. */
  lemma SlaeKeepsInvariant(model: SlaeModel, n: nat, eps: real, maxLen: nat, path: seq<nat>, t: nat, w: real, theta: real)
    requires model.Valid(n) && InRange(path, n) && maxLen < |path| && t < maxLen
    requires SlaeInvariant(model, n, eps, maxLen, path, t, w, theta)
    requires !ZeroVector(model.p[path[t]]) && StepEntry(model.p, n, path, t) != 0.0
    requires Abs(NextWeight(model.h, model.p, n, path, t, w)) >= eps
    ensures SlaeInvariant(model, n, eps, maxLen, path, t + 1, NextWeight(model.h, model.p, n, path, t, w),
                          NextEstimate(model, n, path, t, w, theta))
  {
    SlaeExtend(model, n, eps, maxLen, path, t, w, theta);
    forall s | 0 < s <= t + 1
      ensures Abs(PathWeight(model.h, model.p, n, path, s)) >= eps
    {
      if s <= t {
        assert Abs(PathWeight(model.h, model.p, n, path, s)) >= eps;
      }
    }
  }

  /** The walk from iteration t + 1 on is the walk from iteration t, when iteration t carries on. */
  lemma SlaeCarriesOn(model: SlaeModel, n: nat, eps: real, maxLen: nat, path: seq<nat>, t: nat, w: real, theta: real)
    requires model.Valid(n) && InRange(path, n) && maxLen < |path| && t < maxLen
    requires !ZeroVector(model.p[path[t]]) && StepEntry(model.p, n, path, t) != 0.0
    requires Abs(NextWeight(model.h, model.p, n, path, t, w)) >= eps
    requires SlaeTrace(model, n, eps, maxLen, path,
                       SlaeSteps(model, n, eps, maxLen, path, t + 1, NextWeight(model.h, model.p, n, path, t, w),
                                 NextEstimate(model, n, path, t, w, theta)))
    ensures SlaeTrace(model, n, eps, maxLen, path, SlaeSteps(model, n, eps, maxLen, path, t, w, theta))
  {
    SlaeStepOn(model, n, eps, maxLen, path, t, w, theta);
    SlaeTraceSame(model, n, eps, maxLen, path,
                  SlaeSteps(model, n, eps, maxLen, path, t + 1, NextWeight(model.h, model.p, n, path, t, w),
                            NextEstimate(model, n, path, t, w, theta)),
                  SlaeSteps(model, n, eps, maxLen, path, t, w, theta));
  }

  /** A transition whose new weight is below epsilon ends the walk with that weight. */
  lemma SlaeStepBelow(model: SlaeModel, n: nat, eps: real, maxLen: nat, path: seq<nat>, t: nat, w: real, theta: real)
    requires model.Valid(n) && InRange(path, n) && maxLen < |path| && t < maxLen
    requires !ZeroVector(model.p[path[t]]) && StepEntry(model.p, n, path, t) != 0.0
    requires Abs(NextWeight(model.h, model.p, n, path, t, w)) < eps
    ensures SlaeSteps(model, n, eps, maxLen, path, t, w, theta)
      == SlaeOutcome(NextEstimate(model, n, path, t, w, theta),
                     NextWeight(model.h, model.p, n, path, t, w), t + 1, BelowEpsilon)
  {
  }

  /** A transition that keeps the weight at or above epsilon hands the walk on to iteration t + 1. */
  lemma SlaeStepOn(model: SlaeModel, n: nat, eps: real, maxLen: nat, path: seq<nat>, t: nat, w: real, theta: real)
    requires model.Valid(n) && InRange(path, n) && maxLen < |path| && t < maxLen
    requires !ZeroVector(model.p[path[t]]) && StepEntry(model.p, n, path, t) != 0.0
    requires Abs(NextWeight(model.h, model.p, n, path, t, w)) >= eps
    ensures SlaeSteps(model, n, eps, maxLen, path, t, w, theta)
      == SlaeSteps(model, n, eps, maxLen, path, t + 1, NextWeight(model.h, model.p, n, path, t, w),
                   NextEstimate(model, n, path, t, w, theta))
  {

  }

  /** A trace property of an outcome carries over to an equal outcome. */
  lemma SlaeTraceSame(model: SlaeModel, n: nat, eps: real, maxLen: nat, path: seq<nat>, o1: SlaeOutcome, o2: SlaeOutcome)
    requires model.Valid(n) && InRange(path, n) && maxLen < |path| && o1.steps <= maxLen
    requires o1 == o2 && SlaeTrace(model, n, eps, maxLen, path, o1)
    ensures SlaeTrace(model, n, eps, maxLen, path, o2)
  {
  }

  /** The closed form of a whole linear-system walk along `[start] + samples`. */
  lemma SlaeWalkClosedForm(model: SlaeModel, n: nat, eps: real, maxLen: nat, start: nat, samples: seq<nat>)
    requires model.Valid(n) && start < n && InRange(samples, n) && maxLen <= |samples|
    ensures SlaeTrace(model, n, eps, maxLen, [start] + samples, SlaeWalk(model, n, eps, maxLen, start, samples))
  {
    SlaeStepsClosedForm(model, n, eps, maxLen, [start] + samples, 0, 1.0, model.g[start]);
  }

  /** The linear-system loop reads only the first maxLen + 1 states of the path:
      two paths that agree on them give the same outcome. */
  lemma {:induction false} SlaeStepsUsesPrefix(model: SlaeModel, n: nat, eps: real, maxLen: nat,
                                              path1: seq<nat>, path2: seq<nat>, t: nat, w: real, theta: real)
    requires model.Valid(n) && InRange(path1, n) && InRange(path2, n)
    requires maxLen < |path1| && maxLen < |path2| && t <= maxLen
    requires path1[..maxLen + 1] == path2[..maxLen + 1]
    ensures SlaeSteps(model, n, eps, maxLen, path1, t, w, theta) == SlaeSteps(model, n, eps, maxLen, path2, t, w, theta)
    decreases maxLen - t
  {
    assert path1[t] == path1[..maxLen + 1][t] == path2[t];
    if t < maxLen {
      assert path1[t + 1] == path1[..maxLen + 1][t + 1] == path2[t + 1];
      if !ZeroVector(model.p[path1[t]]) && StepEntry(model.p, n, path1, t) != 0.0 {
        assert StepEntry(model.h, n, path1, t) == StepEntry(model.h, n, path2, t);
        assert NextWeight(model.h, model.p, n, path1, t, w) == NextWeight(model.h, model.p, n, path2, t, w);
        assert NextEstimate(model, n, path1, t, w, theta) == NextEstimate(model, n, path2, t, w, theta);
        SlaeStepsUsesPrefix(model, n, eps, maxLen, path1, path2, t + 1,
                            NextWeight(model.h, model.p, n, path1, t, w), NextEstimate(model, n, path1, t, w, theta));
      }
    }
  }

  /** A linear-system walk uses at most maxLen draws: the draws after the first
      maxLen do not change its outcome. */
  lemma SlaeWalkUsesFirstDraws(model: SlaeModel, n: nat, eps: real, maxLen: nat, start: nat,
                               samples1: seq<nat>, samples2: seq<nat>)
    requires model.Valid(n) && start < n && InRange(samples1, n) && InRange(samples2, n)
    requires maxLen <= |samples1| && maxLen <= |samples2| && samples1[..maxLen] == samples2[..maxLen]
    ensures SlaeWalk(model, n, eps, maxLen, start, samples1) == SlaeWalk(model, n, eps, maxLen, start, samples2)
  {
    assert ([start] + samples1)[..maxLen + 1] == [start] + samples1[..maxLen];
    assert ([start] + samples2)[..maxLen + 1] == [start] + samples2[..maxLen];
    SlaeStepsUsesPrefix(model, n, eps, maxLen, [start] + samples1, [start] + samples2, 0, 1.0, model.g[start]);
  }

  // ---------------------------------------------------------------------------
  // Inversion walk
  // ---------------------------------------------------------------------------

  /** The accumulator after depositing weight w at state j: xi[j] += w. */
  function Deposit(xi: Vector, j: nat, w: real): (r: Vector)
    requires j < |xi|
    ensures |r| == |xi|
  {
    xi[j := xi[j] + w]
  }

  /** The loop of the inversion worker from iteration t on, at state path[t]
      with weight w and accumulator xi. */
  function MiSteps(model: MiModel, n: nat, len: nat, path: seq<nat>, t: nat, w: real, xi: Vector): (o: MiOutcome)
    requires model.Valid(n) && InRange(path, n) && len < |path| && t <= len && |xi| == n
    ensures t <= o.steps <= len && |o.xi| == n
    ensures o.stop != BelowEpsilon
    ensures o.steps == t ==> o.xi == xi && o.weight == w
    decreases len - t
  {
    if t == len then MiOutcome(xi, w, t, LengthReached)
    else if ZeroVector(model.p[path[t]]) then MiOutcome(xi, w, t, Absorbed)
    else if StepEntry(model.p, n, path, t) == 0.0 then MiOutcome(xi, w, t, ZeroProbability)
    else
      var w' := NextWeight(model.l, model.p, n, path, t, w);
      MiSteps(model, n, len, path, t + 1, w', Deposit(xi, path[t + 1], w'))
  }

  /** `_mi_walk_worker`: start at `start` with W = 1 and xi the zero vector with W added at `start`. */
  function MiWalk(model: MiModel, n: nat, len: nat, start: nat, samples: seq<nat>): (o: MiOutcome)
    requires model.Valid(n) && start < n && InRange(samples, n) && len <= |samples|
    ensures |o.xi| == n && o.steps <= len && o.stop != BelowEpsilon
    ensures len == 0 || ZeroVector(model.p[start]) ==> o.steps == 0 && o.xi == Unit(n, start)
  {
    var xi0 := Deposit(Zeros(n), start, 1.0);
    assert xi0 == Unit(n, start);
    MiSteps(model, n, len, [start] + samples, 0, 1.0, xi0)
  }

  /** The outcome o is the one the inversion loop reaches along `path`: W is the
      path product after o.steps transitions, entry j of xi is the weight deposited
      at visits to j, no guard fired before then, and the exit is the guard that fired. */
  predicate MiTrace(model: MiModel, n: nat, len: nat, path: seq<nat>, o: MiOutcome)
    requires model.Valid(n) && InRange(path, n) && len < |path| && o.steps <= len && |o.xi| == n
  {
    && Feasible(model.p, n, path, o.steps)
    && o.weight == PathWeight(model.l, model.p, n, path, o.steps)
    && (forall j :: 0 <= j < n ==> o.xi[j] == Deposits(model, n, path, o.steps, j))
    && NotAbsorbedBefore(model.p, n, path, o.steps)
    && ExitJustified(model.p, n, len, path, o.steps, o.stop)
  }

  /** What holds of the inversion loop at the top of iteration t: the path so far
      was feasible, no guard has fired, and W and xi are in closed form. */
  predicate MiInvariant(model: MiModel, n: nat, len: nat, path: seq<nat>, t: nat, w: real, xi: Vector)
    requires model.Valid(n) && InRange(path, n) && len < |path| && t <= len && |xi| == n
  {
    && Feasible(model.p, n, path, t)
    && NotAbsorbedBefore(model.p, n, path, t)
    && w == PathWeight(model.l, model.p, n, path, t)
    && (forall j :: 0 <= j < n ==> xi[j] == Deposits(model, n, path, t, j))
  }

  /** Along the path the walk follows, W is the path product and entry j of the
      accumulator is the sum of the weights deposited at visits to j; the walk
      stops at the first step where a guard fires. */
  lemma {:induction false} MiStepsClosedForm(model: MiModel, n: nat, len: nat, path: seq<nat>, t: nat, w: real, xi: Vector)
    requires model.Valid(n) && InRange(path, n) && len < |path| && t <= len && |xi| == n
    requires MiInvariant(model, n, len, path, t, w, xi)
    ensures MiTrace(model, n, len, path, MiSteps(model, n, len, path, t, w, xi))
    decreases len - t
  {
    if t == len || ZeroVector(model.p[path[t]]) || StepEntry(model.p, n, path, t) == 0.0 {
      MiExit(model, n, len, path, t, w, xi);
    } else {
      var w' := NextWeight(model.l, model.p, n, path, t, w);
      MiKeepsInvariant(model, n, len, path, t, w, xi);
      MiStepsClosedForm(model, n, len, path, t + 1, w', Deposit(xi, path[t + 1], w'));
      MiCarriesOn(model, n, len, path, t, w, xi);
    }
  }

  /** An iteration whose guards stop the loop before sampling ends the walk where it stands. */
  lemma MiExit(model: MiModel, n: nat, len: nat, path: seq<nat>, t: nat, w: real, xi: Vector)
    requires model.Valid(n) && InRange(path, n) && len < |path| && t <= len && |xi| == n
    requires MiInvariant(model, n, len, path, t, w, xi)
    requires t == len || ZeroVector(model.p[path[t]]) || StepEntry(model.p, n, path, t) == 0.0
    ensures MiTrace(model, n, len, path, MiSteps(model, n, len, path, t, w, xi))
  {
  }

  /** An iteration that takes a transition keeps the loop invariant. */
  lemma MiKeepsInvariant(model: MiModel, n: nat, len: nat, path: seq<nat>, t: nat, w: real, xi: Vector)
    requires model.Valid(n) && InRange(path, n) && len < |path| && t < len && |xi| == n
    requires MiInvariant(model, n, len, path, t, w, xi)
    requires !ZeroVector(model.p[path[t]]) && StepEntry(model.p, n, path, t) != 0.0
    ensures MiInvariant(model, n, len, path, t + 1, NextWeight(model.l, model.p, n, path, t, w),
                        Deposit(xi, path[t + 1], NextWeight(model.l, model.p, n, path, t, w)))
  {
    PrefixExtend(model.p, n, path, t);
    WeightStep(model.l, model.p, n, path, t, w);
    var w' := NextWeight(model.l, model.p, n, path, t, w);
    var xi' := Deposit(xi, path[t + 1], w');
    forall j | 0 <= j < n
      ensures xi'[j] == Deposits(model, n, path, t + 1, j)
    {
      DepositsStep(model, n, path, t, j, w', xi[j]);
    }
  }

  /** One more transition adds W(t+1) to entry j(t+1) of the deposits and leaves the others. */
  lemma DepositsStep(model: MiModel, n: nat, path: seq<nat>, t: nat, j: nat, w': real, x: real)
    requires model.Valid(n) && InRange(path, n) && t + 1 < |path| && Feasible(model.p, n, path, t + 1)
    requires w' == PathWeight(model.l, model.p, n, path, t + 1) && x == Deposits(model, n, path, t, j)
    ensures Deposits(model, n, path, t + 1, j) == if path[t + 1] == j then x + w' else x
  {
  }

  /** The walk from iteration t + 1 on is the walk from iteration t, when iteration t takes a transition. */
  lemma MiCarriesOn(model: MiModel, n: nat, len: nat, path: seq<nat>, t: nat, w: real, xi: Vector)
    requires model.Valid(n) && InRange(path, n) && len < |path| && t < len && |xi| == n
    requires !ZeroVector(model.p[path[t]]) && StepEntry(model.p, n, path, t) != 0.0
    requires MiTrace(model, n, len, path,
                     MiSteps(model, n, len, path, t + 1, NextWeight(model.l, model.p, n, path, t, w),
                             Deposit(xi, path[t + 1], NextWeight(model.l, model.p, n, path, t, w))))
    ensures MiTrace(model, n, len, path, MiSteps(model, n, len, path, t, w, xi))
  {
    MiStepOn(model, n, len, path, t, w, xi);
    MiTraceSame(model, n, len, path,
                MiSteps(model, n, len, path, t + 1, NextWeight(model.l, model.p, n, path, t, w),
                        Deposit(xi, path[t + 1], NextWeight(model.l, model.p, n, path, t, w))),
                MiSteps(model, n, len, path, t, w, xi));
  }

  /** One iteration of the inversion loop that takes a transition. */
  lemma MiStepOn(model: MiModel, n: nat, len: nat, path: seq<nat>, t: nat, w: real, xi: Vector)
    requires model.Valid(n) && InRange(path, n) && len < |path| && t < len && |xi| == n
    requires !ZeroVector(model.p[path[t]]) && StepEntry(model.p, n, path, t) != 0.0
    ensures MiSteps(model, n, len, path, t, w, xi)
      == MiSteps(model, n, len, path, t + 1, NextWeight(model.l, model.p, n, path, t, w),
                 Deposit(xi, path[t + 1], NextWeight(model.l, model.p, n, path, t, w)))
  {
  }

  /** A trace property of an outcome carries over to an equal outcome. */
  lemma MiTraceSame(model: MiModel, n: nat, len: nat, path: seq<nat>, o1: MiOutcome, o2: MiOutcome)
    requires model.Valid(n) && InRange(path, n) && len < |path| && o1.steps <= len && |o1.xi| == n
    requires o1 == o2 && MiTrace(model, n, len, path, o1)
    ensures MiTrace(model, n, len, path, o2)
  {
  }

  /** The closed form of a whole inversion walk along `[start] + samples`. */
  lemma MiWalkClosedForm(model: MiModel, n: nat, len: nat, start: nat, samples: seq<nat>)
    requires model.Valid(n) && start < n && InRange(samples, n) && len <= |samples|
    ensures MiTrace(model, n, len, [start] + samples, MiWalk(model, n, len, start, samples))
  {
    var path := [start] + samples;
    var xi0 := Deposit(Zeros(n), start, 1.0);
    forall j | 0 <= j < n
      ensures xi0[j] == Deposits(model, n, path, 0, j)
    {
    }
    MiStepsClosedForm(model, n, len, path, 0, 1.0, xi0);
  }

  /** The inversion loop reads only the first len + 1 states of the path. */
  lemma {:induction false} MiStepsUsesPrefix(model: MiModel, n: nat, len: nat, path1: seq<nat>, path2: seq<nat>,
                                            t: nat, w: real, xi: Vector)
    requires model.Valid(n) && InRange(path1, n) && InRange(path2, n) && |xi| == n
    requires len < |path1| && len < |path2| && t <= len
    requires path1[..len + 1] == path2[..len + 1]
    ensures MiSteps(model, n, len, path1, t, w, xi) == MiSteps(model, n, len, path2, t, w, xi)
    decreases len - t
  {
    assert path1[t] == path1[..len + 1][t] == path2[t];
    if t < len {
      assert path1[t + 1] == path1[..len + 1][t + 1] == path2[t + 1];
      if !ZeroVector(model.p[path1[t]]) && StepEntry(model.p, n, path1, t) != 0.0 {
        assert StepEntry(model.l, n, path1, t) == StepEntry(model.l, n, path2, t);
        var w' := NextWeight(model.l, model.p, n, path1, t, w);
        assert w' == NextWeight(model.l, model.p, n, path2, t, w);
        MiStepsUsesPrefix(model, n, len, path1, path2, t + 1, w', Deposit(xi, path1[t + 1], w'));
      }
    }
  }

  /** An inversion walk uses at most m draws: the draws after the first m do not change its outcome. */
  lemma MiWalkUsesFirstDraws(model: MiModel, n: nat, len: nat, start: nat, samples1: seq<nat>, samples2: seq<nat>)
    requires model.Valid(n) && start < n && InRange(samples1, n) && InRange(samples2, n)
    requires len <= |samples1| && len <= |samples2| && samples1[..len] == samples2[..len]
    ensures MiWalk(model, n, len, start, samples1) == MiWalk(model, n, len, start, samples2)
  {
    assert ([start] + samples1)[..len + 1] == [start] + samples1[..len];
    assert ([start] + samples2)[..len + 1] == [start] + samples2[..len];
    MiStepsUsesPrefix(model, n, len, [start] + samples1, [start] + samples2, 0, 1.0, Deposit(Zeros(n), start, 1.0));
  }
}
