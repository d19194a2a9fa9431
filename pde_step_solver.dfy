/** The theta time-stepper for `dV/dt + L(V) = 0` on a regular one-dimensional grid, the
    upwind finite-difference discretiser that builds `L` as a tridiagonal operator, and the
    grid itself. */
module PdeStepSolver {
  import opened Errors
  import VectorOp
  import TridiagOperator

  // The grid.

  /** `RegularGrid1D`: `size` equally spaced nodes from `boundaryInf` to `boundarySup`. */
  datatype RegularGrid1D = RegularGrid1D(size: int, boundaryInf: real, boundarySup: real, step: real)
  {
    /** What the constructor's contract guarantees of every grid it builds. */
    predicate Valid()
    {
      size > 1 && boundarySup >= boundaryInf && step == (boundarySup - boundaryInf) / (size as real - 1.0)
    }
  }

  /** `new RegularGrid1D(size, inf, sup)`: the step is the width over the number of gaps, so
      it is not negative and `size - 1` steps lead from `inf` exactly to `sup`. */
  function NewRegularGrid1D(size: int, boundaryInf: real, boundarySup: real): (g: RegularGrid1D)
    requires boundarySup >= boundaryInf && size > 1
    ensures g.Valid()
    ensures g.size == size && g.boundaryInf == boundaryInf && g.boundarySup == boundarySup
    ensures g.step >= 0.0 && boundaryInf + (size as real - 1.0) * g.step == boundarySup
  {
    var gaps := size as real - 1.0;
    var step := (boundarySup - boundaryInf) / gaps;
    assert gaps * step == boundarySup - boundaryInf;
    RegularGrid1D(size, boundaryInf, boundarySup, step)
  }

  // Arithmetic helpers: facts about reals that the verifier needs spelled out. They model
  // nothing in the program; the stencil lemmas below use them.

  /** `a * b` is positive when `a` and `b` are. */
  lemma ProductOfPositives(a: real, b: real, p: real)
    requires a > 0.0 && b > 0.0 && p == a * b
    ensures p > 0.0
  {
  }

  /** `a * b` is positive when `a` and `b` are both negative. */
  lemma ProductOfNegatives(a: real, b: real, p: real)
    requires a < 0.0 && b < 0.0 && p == a * b
    ensures p > 0.0
  {
  }

  /** The square of a non-zero step is positive. */
  lemma SquarePositive(step: real, h2: real)
    requires step != 0.0 && h2 == step * step
    ensures h2 > 0.0
  {
    if step > 0.0 {
      ProductOfPositives(step, step, h2);
    } else {
      ProductOfNegatives(step, step, h2);
    }
  }

  /** Sums and differences over a common denominator. */
  lemma OverCommon(p: real, q: real, r: real, h: real)
    requires h != 0.0
    ensures p / h + q / h + r / h == (p + q + r) / h
    ensures r / h - p / h == (r - p) / h
    ensures r / h + p / h == (r + p) / h
  {
  }

  /** A non-negative numerator over a positive denominator. */
  lemma NonNegativeQuotient(p: real, h: real)
    requires p >= 0.0 && h > 0.0
    ensures p / h >= 0.0
  {
  }

  /** `(dx * step) / (step * step) * step == dx`. */
  lemma DriftCancels(dx: real, step: real, h2: real)
    requires step != 0.0 && h2 > 0.0 && h2 == step * step
    ensures (dx * step) / h2 * step == dx
  {
    var q := (dx * step) / h2;
    assert q * h2 == dx * step;
    assert (q * step) * step == dx * step;
  }

  // The upwind stencil.

  /** Row `i` of the discretised operator. */
  datatype Stencil = Stencil(lower: real, diag: real, upper: real)

  /** The row `FiniteDifference` writes for one node, from the second-order coefficient `d2x`,
      the first-order coefficient `dx` and the zero-order coefficient `i0` sampled there. */
  function StencilRow(step: real, d2x: real, dx: real, i0: real): Stencil
    requires step != 0.0
  {
    var h2 := step * step;
    SquarePositive(step, h2);
    Upwind(dx * step, 2.0 * d2x, h2, i0)
  }

  /** The branch choice of `FiniteDifference` in terms of `drift = dx * step`,
      `diffusion = 2 * d2x` and `h2 = step * step`: a drift stronger than the diffusion, in
      either direction, is differenced one-sidedly against the flow; otherwise the
      differences are centred. */
  function Upwind(drift: real, diffusion: real, h2: real, i0: real): Stencil
    requires h2 > 0.0
  {
    if drift < -diffusion then
      Stencil((-drift + 0.5 * diffusion) / h2, (drift - diffusion) / h2 + i0, 0.5 * diffusion / h2)
    else if drift > diffusion then
      Stencil(0.5 * diffusion / h2, (-drift - diffusion) / h2 + i0, (drift + 0.5 * diffusion) / h2)
    else
      Stencil(0.5 * (-drift + diffusion) / h2, -diffusion / h2 + i0, 0.5 * (drift + diffusion) / h2)
  }

  /** In every branch the three coefficients of a row add up to `i0`. */
  lemma UpwindSum(drift: real, diffusion: real, h2: real, i0: real)
    requires h2 > 0.0
    ensures var s := Upwind(drift, diffusion, h2, i0);
            s.lower + s.diag + s.upper == i0
  {
    if drift < -diffusion {
      OverCommon(-drift + 0.5 * diffusion, drift - diffusion, 0.5 * diffusion, h2);
    } else if drift > diffusion {
      OverCommon(0.5 * diffusion, -drift - diffusion, drift + 0.5 * diffusion, h2);
    } else {
      OverCommon(0.5 * (-drift + diffusion), -diffusion, 0.5 * (drift + diffusion), h2);
    }
  }

  /** In every branch the first moment `upper - lower` of a row is `drift / h2`. */
  lemma UpwindFirstMoment(drift: real, diffusion: real, h2: real, i0: real)
    requires h2 > 0.0
    ensures var s := Upwind(drift, diffusion, h2, i0);
            s.upper - s.lower == drift / h2
  {
    if drift < -diffusion {
      OverCommon(-drift + 0.5 * diffusion, 0.0, 0.5 * diffusion, h2);
    } else if drift > diffusion {
      OverCommon(0.5 * diffusion, 0.0, drift + 0.5 * diffusion, h2);
    } else {
      OverCommon(0.5 * (-drift + diffusion), 0.0, 0.5 * (drift + diffusion), h2);
    }
  }

  /** With a non-negative diffusion both off-diagonal coefficients are non-negative. */
  lemma UpwindSigns(drift: real, diffusion: real, h2: real, i0: real)
    requires h2 > 0.0 && diffusion >= 0.0
    ensures var s := Upwind(drift, diffusion, h2, i0);
            s.lower >= 0.0 && s.upper >= 0.0
  {
    if drift < -diffusion {
      NonNegativeQuotient(-drift + 0.5 * diffusion, h2);
      NonNegativeQuotient(0.5 * diffusion, h2);
    } else if drift > diffusion {
      NonNegativeQuotient(0.5 * diffusion, h2);
      NonNegativeQuotient(drift + 0.5 * diffusion, h2);
    } else {
      NonNegativeQuotient(0.5 * (-drift + diffusion), h2);
      NonNegativeQuotient(0.5 * (drift + diffusion), h2);
    }
  }

  /** The three coefficients of a row add up to the zero-order coefficient: the difference
      terms cancel, so a constant `V` is mapped to `i0 * V`. */
  lemma StencilRowSum(step: real, d2x: real, dx: real, i0: real)
    requires step != 0.0
    ensures var s := StencilRow(step, d2x, dx, i0);
            s.lower + s.diag + s.upper == i0
  {
    var h2 := step * step;
    SquarePositive(step, h2);
    UpwindSum(dx * step, 2.0 * d2x, h2, i0);
  }

  /** With a non-negative diffusion coefficient the branch choice keeps both off-diagonal
      coefficients non-negative: the upwinding. */
  lemma StencilUpwind(step: real, d2x: real, dx: real, i0: real)
    requires step != 0.0 && d2x >= 0.0
    ensures var s := StencilRow(step, d2x, dx, i0);
            s.lower >= 0.0 && s.upper >= 0.0
  {
    var h2 := step * step;
    SquarePositive(step, h2);
    UpwindSigns(dx * step, 2.0 * d2x, h2, i0);
  }

  /** In every branch the first moment of the row is the drift coefficient: a linear `V` is
      differentiated exactly, `(upper - lower) * step == dx`. */
  lemma StencilDrift(step: real, d2x: real, dx: real, i0: real)
    requires step != 0.0
    ensures var s := StencilRow(step, d2x, dx, i0);
            (s.upper - s.lower) * step == dx
  {
    var h2 := step * step;
    SquarePositive(step, h2);
    UpwindFirstMoment(dx * step, 2.0 * d2x, h2, i0);
    DriftCancels(dx, step, h2);
  }

  /** In the centred branch the second moment of the row is the diffusion:
      `(upper + lower) * h2 == diffusion`. */
  lemma UpwindCentred(drift: real, diffusion: real, h2: real, i0: real)
    requires h2 > 0.0 && -diffusion <= drift <= diffusion
    ensures var s := Upwind(drift, diffusion, h2, i0);
            (s.upper + s.lower) * h2 == diffusion
  {
    OverCommon(0.5 * (-drift + diffusion), 0.0, 0.5 * (drift + diffusion), h2);
    assert 0.5 * (drift + diffusion) + 0.5 * (-drift + diffusion) == diffusion;
  }

  /** In the centred branch the second moment of the row is twice the diffusion
      coefficient: `(upper + lower) * step * step == 2 * d2x`. */
  lemma StencilCentredDiffusion(step: real, d2x: real, dx: real, i0: real)
    requires step != 0.0
    requires -(2.0 * d2x) <= dx * step <= 2.0 * d2x
    ensures var s := StencilRow(step, d2x, dx, i0);
            (s.upper + s.lower) * (step * step) == 2.0 * d2x
  {
    var h2 := step * step;
    SquarePositive(step, h2);
    UpwindCentred(dx * step, 2.0 * d2x, h2, i0);
  }

  // The discretiser.

  /** The coefficients `FillCoeff` samples on the grid for one time interval. */
  datatype Samples = Samples(d2X: seq<real>, dX: seq<real>, I: seq<real>)
  {
    /** Every node of an `n`-node grid has a sample. */
    predicate Covers(n: int)
    {
      |d2X| >= n && |dX| >= n && |I| >= n
    }
  }

  /** `PdeCoeffSampler1D`: a grid and the model-specific sampling of the coefficients over a
      time interval `(start, end)`, which is an input here. */
  datatype PdeCoeffSampler1D = PdeCoeffSampler1D(grid: RegularGrid1D, fillCoeff: (real, real) -> Samples)

  /** The row `FiniteDifference` writes at node `i`. */
  function StencilAt(step: real, c: Samples, i: nat): Stencil
    requires step != 0.0 && i < |c.d2X| && i < |c.dX| && i < |c.I|
  {
    StencilRow(step, c.d2X[i], c.dX[i], c.I[i])
  }

  /** The `n`-node operator with the stencil rows and no boundary shift. */
  function Discretization(step: real, c: Samples, n: nat): (t: TridiagOperator.Tridiag)
    requires step != 0.0 && c.Covers(n)
    ensures t.WellFormed() && t.Size() == n && t.infShift == 0.0 && t.supShift == 0.0
  {
    TridiagOperator.Tridiag(seq(n, i requires 0 <= i < n => StencilAt(step, c, i).lower),
                            seq(n, i requires 0 <= i < n => StencilAt(step, c, i).diag),
                            seq(n, i requires 0 <= i < n => StencilAt(step, c, i).upper),
                            0.0, 0.0)
  }

  /** Every row of the discretisation adds up to the zero-order coefficient, reproduces the
      drift coefficient exactly, and, when the diffusion coefficient is not negative, has
      non-negative off-diagonal entries. */
  lemma DiscretizationRows(step: real, c: Samples, n: nat, i: nat)
    requires step != 0.0 && c.Covers(n) && i < n
    ensures var t := Discretization(step, c, n);
            t.lower[i] + t.diag[i] + t.upper[i] == c.I[i]
            && (t.upper[i] - t.lower[i]) * step == c.dX[i]
            && (c.d2X[i] >= 0.0 ==> t.lower[i] >= 0.0 && t.upper[i] >= 0.0)
  {
    StencilRowSum(step, c.d2X[i], c.dX[i], c.I[i]);
    StencilDrift(step, c.d2X[i], c.dX[i], c.I[i]);
    if c.d2X[i] >= 0.0 {
      StencilUpwind(step, c.d2X[i], c.dX[i], c.I[i]);
    }
  }

  /** `FiniteDifference(d2X, dX, I, ref lower, ref diag, ref upper)`: writes the stencil row of
      every node, from the first to the last. */
  method FiniteDifference(step: real, c: Samples, lower: array<real>, diag: array<real>, upper: array<real>)
    requires step != 0.0 && c.Covers(lower.Length)
    requires diag.Length == lower.Length && upper.Length == lower.Length
    requires lower != diag && lower != upper && diag != upper
    modifies lower, diag, upper
    ensures TridiagOperator.Tridiag(lower[..], diag[..], upper[..], 0.0, 0.0) == Discretization(step, c, lower.Length)
  {
    ghost var t := Discretization(step, c, lower.Length);
    var i := 0;
    while i < lower.Length
      invariant 0 <= i <= lower.Length
      invariant forall k :: 0 <= k < i ==> lower[k] == t.lower[k] && diag[k] == t.diag[k] && upper[k] == t.upper[k]
    {
      var drift := c.dX[i] * step;
      var diffusion := 2.0 * c.d2X[i];
      ghost var h2 := step * step;
      SquarePositive(step, h2);
      var l, d, u;
      if drift < -diffusion {
        d := (drift - diffusion) / (step * step) + c.I[i];
        u := 0.5 * diffusion / (step * step);
        l := (-drift + 0.5 * diffusion) / (step * step);
      } else if drift > diffusion {
        d := (-drift - diffusion) / (step * step) + c.I[i];
        u := (drift + 0.5 * diffusion) / (step * step);
        l := 0.5 * diffusion / (step * step);
      } else {
        d := -diffusion / (step * step) + c.I[i];
        u := 0.5 * (drift + diffusion) / (step * step);
        l := 0.5 * (-drift + diffusion) / (step * step);
      }
      assert Stencil(l, d, u) == StencilAt(step, c, i);
      diag[i] := d;
      upper[i] := u;
      lower[i] := l;
      i := i + 1;
    }
    assert lower[..] == t.lower && diag[..] == t.diag && upper[..] == t.upper;
  }

  /** `FiniteDiffDiscretizer1D`: discretises the operator on the sampler's grid. */
  class FiniteDiffDiscretizer1D {
    const pdeCoeffs: PdeCoeffSampler1D

    constructor (pdeCoeffs: PdeCoeffSampler1D)
      ensures this.pdeCoeffs == pdeCoeffs
    {
      this.pdeCoeffs := pdeCoeffs;
    }

    /** The grid has a non-zero step (the stencil divides by its square) and the sampler
        covers every node on `(start, end)`. */
    predicate Ready(start: real, end: real)
    {
      pdeCoeffs.grid.Valid() && pdeCoeffs.grid.step != 0.0
      && pdeCoeffs.fillCoeff(start, end).Covers(pdeCoeffs.grid.size)
    }

    /** The operator `Discretize(start, end)` returns. */
    function Operator(start: real, end: real): (t: TridiagOperator.Tridiag)
      requires Ready(start, end)
      ensures t.WellFormed() && t.Size() == pdeCoeffs.grid.size && t.infShift == 0.0 && t.supShift == 0.0
    {
      Discretization(pdeCoeffs.grid.step, pdeCoeffs.fillCoeff(start, end), pdeCoeffs.grid.size)
    }

    /** `Discretize(start, end)`: samples the coefficients, writes the stencil into three new
        arrays and wraps them, with no shift, in a new operator. */
    method Discretize(start: real, end: real) returns (op: TridiagOperator.TridiagOperator1D)
      requires Ready(start, end)
      ensures fresh(op) && fresh(op.lower) && fresh(op.diag) && fresh(op.upper)
      ensures op.Valid() && op.Value() == Operator(start, end)
    {
      var gridSize := pdeCoeffs.grid.size;
      var c := pdeCoeffs.fillCoeff(start, end);
      var lower := new real[gridSize];
      var diag := new real[gridSize];
      var upper := new real[gridSize];
      FiniteDifference(pdeCoeffs.grid.step, c, lower, diag, upper);
      op := new TridiagOperator.TridiagOperator1D(lower, diag, upper);
    }

    /** `SourceTerm(start, end)` has no implementation: it always fails. */
    method SourceTerm(start: real, end: real) returns (r: Result<seq<real>>)
      ensures r == Failure(NotImplemented)
    {
      r := Failure(NotImplemented);
    }
  }

  // The theta scheme.

  /** The implicit part `(theta*dt) * L + I`. */
  function ImplicitPart(l: TridiagOperator.Tridiag, theta: real, dt: real): TridiagOperator.Tridiag
  {
    TridiagOperator.ScaledPlusIdentity(l, theta * dt)
  }

  /** The explicit part `(-(1-theta)*dt) * L + I`. */
  function ExplicitPart(l: TridiagOperator.Tridiag, theta: real, dt: real): TridiagOperator.Tridiag
  {
    TridiagOperator.ScaledPlusIdentity(l, -(1.0 - theta) * dt)
  }

  /** The fully implicit scheme has the identity as its explicit part. */
  lemma ImplicitSchemeHasIdentityExplicitPart(l: TridiagOperator.Tridiag, dt: real)
    requires l.WellFormed()
    ensures ExplicitPart(l, 1.0, dt) == TridiagOperator.Identity(l.Size())
  {
    assert -(1.0 - 1.0) * dt == 0.0;
    TridiagOperator.ScaledByZeroIsIdentity(l);
  }

  /** The fully explicit scheme has the identity as its implicit part. */
  lemma ExplicitSchemeHasIdentityImplicitPart(l: TridiagOperator.Tridiag, dt: real)
    requires l.WellFormed()
    ensures ImplicitPart(l, 0.0, dt) == TridiagOperator.Identity(l.Size())
  {
    assert 0.0 * dt == 0.0;
    TridiagOperator.ScaledByZeroIsIdentity(l);
  }

  /** `w` and `v`, with `lw == L(w)` and `lv == L(v)`, satisfy the theta-scheme equation
      `(w - v) + theta*dt*L(w) + (1-theta)*dt*L(v) == 0` at every node. */
  predicate ThetaBalanced(theta: real, dt: real, lw: seq<real>, w: seq<real>, lv: seq<real>, v: seq<real>)
  {
    |lw| == |w| == |lv| == |v|
    && forall i :: 0 <= i < |v| ==> (w[i] - v[i]) + theta * dt * lw[i] + (1.0 - theta) * dt * lv[i] == 0.0
  }

  /** The theta scheme: a step from `v` (at `start`) to `w` (at `end`) that the implicit part
      maps to where the explicit part maps `v` satisfies the theta-scheme equation. */
  lemma ThetaSchemeEquation(l: TridiagOperator.Tridiag, theta: real, dt: real, v: seq<real>, w: seq<real>)
    requires l.WellFormed() && |v| == l.Size() > 0 && |w| == |v|
    requires TridiagOperator.Affine(ImplicitPart(l, theta, dt), w) == TridiagOperator.Affine(ExplicitPart(l, theta, dt), v)
    ensures ThetaBalanced(theta, dt, TridiagOperator.Affine(l, w), w, TridiagOperator.Affine(l, v), v)
  {
    var a, b := theta * dt, -(1.0 - theta) * dt;
    TridiagOperator.ScaledPlusIdentityActs(l, a, w);
    TridiagOperator.ScaledPlusIdentityActs(l, b, v);
    var lw, lv := TridiagOperator.Affine(l, w), TridiagOperator.Affine(l, v);
    assert ImplicitPart(l, theta, dt) == TridiagOperator.ScaledPlusIdentity(l, a);
    assert ExplicitPart(l, theta, dt) == TridiagOperator.ScaledPlusIdentity(l, b);
    assert VectorOp.Combined(lw, a, w, 1.0) == VectorOp.Combined(lv, b, v, 1.0);
    assert |lw| == |w| && |lv| == |v|;
    ThetaNodes(theta, dt, lw, w, lv, v);
  }

  /** The step the scheme takes without a source term, applying the explicit part to `v` and
      solving with the implicit part, lands on a `w` that satisfies the theta-scheme equation. */
  lemma ThetaStepBalanced(l: TridiagOperator.Tridiag, theta: real, dt: real, v: seq<real>)
    requires l.WellFormed() && |v| == l.Size() > 0
    requires ImplicitPart(l, theta, dt).Invertible()
    ensures var y := TridiagOperator.ApplyStep(ExplicitPart(l, theta, dt), v).state;
            var w := TridiagOperator.SolveStep(ImplicitPart(l, theta, dt), y).state;
            ThetaBalanced(theta, dt, TridiagOperator.Affine(l, w), w, TridiagOperator.Affine(l, v), v)
  {
    var im, ex := ImplicitPart(l, theta, dt), ExplicitPart(l, theta, dt);
    assert im.WellFormed() && im.Size() == |v| && ex.WellFormed() && ex.Size() == |v|;
    var y := TridiagOperator.ApplyStep(ex, v).state;
    assert y == TridiagOperator.Affine(ex, v);
    TridiagOperator.ApplyAfterSolve(im, y);
    var w := TridiagOperator.SolveStep(im, y).state;
    assert TridiagOperator.Affine(im, w) == y;
    ThetaSchemeEquation(l, theta, dt, v, w);
  }

  /** The theta-scheme equation, node by node, once both sides are written as combinations. */
  lemma ThetaNodes(theta: real, dt: real, lw: seq<real>, w: seq<real>, lv: seq<real>, v: seq<real>)
    requires |lw| == |w| == |lv| == |v|
    requires VectorOp.Combined(lw, theta * dt, w, 1.0) == VectorOp.Combined(lv, -(1.0 - theta) * dt, v, 1.0)
    ensures ThetaBalanced(theta, dt, lw, w, lv, v)
  {
    forall i | 0 <= i < |v|
      ensures (w[i] - v[i]) + theta * dt * lw[i] + (1.0 - theta) * dt * lv[i] == 0.0
    {
      assert VectorOp.Combined(lw, theta * dt, w, 1.0)[i] == VectorOp.Combined(lv, -(1.0 - theta) * dt, v, 1.0)[i];
      ThetaRow(theta, dt, lw[i], w[i], lv[i], v[i]);
    }
  }

  /** The theta-scheme equation at one node. */
  lemma ThetaRow(theta: real, dt: real, lw: real, w: real, lv: real, v: real)
    requires (theta * dt) * lw + 1.0 * w == (-(1.0 - theta) * dt) * lv + 1.0 * v
    ensures (w - v) + theta * dt * lw + (1.0 - theta) * dt * lv == 0.0
  {
  }

  /** The forward step's equation: for the operator `m` the parts are built from, solving
      `v` with the implicit part gives `u` with `u + theta*dt*m(u) == v`, and applying the
      explicit part to `u` gives `w == v - dt*m(u)` at every node. */
  lemma ForwardStepEquation(m: TridiagOperator.Tridiag, theta: real, dt: real, v: seq<real>)
    requires m.WellFormed() && |v| == m.Size() > 0
    requires ImplicitPart(m, theta, dt).Invertible()
    ensures var u := TridiagOperator.SolveStep(ImplicitPart(m, theta, dt), v).state;
            |u| == |v|
            && TridiagOperator.Affine(ImplicitPart(m, theta, dt), u) == v
            && ForwardBalanced(dt, TridiagOperator.ApplyStep(ExplicitPart(m, theta, dt), u).state, v,
                               TridiagOperator.Affine(m, u))
  {
    var a, b := theta * dt, -(1.0 - theta) * dt;
    var im, ex := ImplicitPart(m, theta, dt), ExplicitPart(m, theta, dt);
    assert im == TridiagOperator.ScaledPlusIdentity(m, a) && ex == TridiagOperator.ScaledPlusIdentity(m, b);
    assert im.WellFormed() && im.Size() == |v| && ex.WellFormed() && ex.Size() == |v|;
    TridiagOperator.ApplyAfterSolve(im, v);
    var u := TridiagOperator.SolveStep(im, v).state;
    assert |u| == |v| && TridiagOperator.Affine(im, u) == v;
    var lu := TridiagOperator.Affine(m, u);
    TridiagOperator.ScaledPlusIdentityActs(m, a, u);
    TridiagOperator.ScaledPlusIdentityActs(m, b, u);
    var w := TridiagOperator.ApplyStep(ex, u).state;
    assert w == TridiagOperator.Affine(ex, u);
    assert |lu| == |u|;
    ForwardNodes(theta, dt, lu, u, w, v);
  }

  /** The forward step, node by node, once both sides are written as combinations. */
  lemma ForwardNodes(theta: real, dt: real, lu: seq<real>, u: seq<real>, w: seq<real>, v: seq<real>)
    requires |lu| == |u| == |v|
    requires w == VectorOp.Combined(lu, -(1.0 - theta) * dt, u, 1.0)
    requires v == VectorOp.Combined(lu, theta * dt, u, 1.0)
    ensures ForwardBalanced(dt, w, v, lu)
  {
    forall i | 0 <= i < |v| ensures w[i] == v[i] - dt * lu[i] {
      ForwardRow(theta, dt, lu[i], u[i], w[i], v[i]);
    }
  }

  /** `w == v - dt*lu` at every node. */
  predicate ForwardBalanced(dt: real, w: seq<real>, v: seq<real>, lu: seq<real>)
  {
    |w| == |v| && |lu| == |v| && forall i :: 0 <= i < |v| ==> w[i] == v[i] - dt * lu[i]
  }

  /** The forward step at one node. */
  lemma ForwardRow(theta: real, dt: real, lu: real, u: real, w: real, v: real)
    requires w == (-(1.0 - theta) * dt) * lu + 1.0 * u
    requires v == (theta * dt) * lu + 1.0 * u
    ensures w == v - dt * lu
  {
  }

  /** Exchanging the bands commutes with building the parts, so `Forward` as written steps
      with the parts of the band-swapped operator. */
  lemma SwappedParts(l: TridiagOperator.Tridiag, theta: real, dt: real)
    ensures TridiagOperator.Swapped(ImplicitPart(l, theta, dt)) == ImplicitPart(TridiagOperator.Swapped(l), theta, dt)
    ensures TridiagOperator.Swapped(ExplicitPart(l, theta, dt)) == ExplicitPart(TridiagOperator.Swapped(l), theta, dt)
  {
  }

  /** Transposing commutes with building the parts, so `ForwardTransposed` steps with the
      parts of the transposed operator. */
  lemma TransposedParts(l: TridiagOperator.Tridiag, theta: real, dt: real)
    requires l.WellFormed()
    ensures TridiagOperator.Transposed(ImplicitPart(l, theta, dt)) == ImplicitPart(TridiagOperator.Transposed(l), theta, dt)
    ensures TridiagOperator.Transposed(ExplicitPart(l, theta, dt)) == ExplicitPart(TridiagOperator.Transposed(l), theta, dt)
  {
    TransposedScaled(l, theta * dt);
    TransposedScaled(l, -(1.0 - theta) * dt);
  }

  lemma TransposedScaled(l: TridiagOperator.Tridiag, a: real)
    requires l.WellFormed()
    ensures TridiagOperator.Transposed(TridiagOperator.ScaledPlusIdentity(l, a))
            == TridiagOperator.ScaledPlusIdentity(TridiagOperator.Transposed(l), a)
  {
    var lhs := TridiagOperator.Transposed(TridiagOperator.ScaledPlusIdentity(l, a));
    var rhs := TridiagOperator.ScaledPlusIdentity(TridiagOperator.Transposed(l), a);
    var n := l.Size();
    assert |lhs.lower| == n == |rhs.lower| && |lhs.upper| == n == |rhs.upper|;
    forall i | 0 <= i < n ensures lhs.lower[i] == rhs.lower[i] && lhs.upper[i] == rhs.upper[i] {
      if i == 0 {
        assert rhs.lower[0] == TridiagOperator.Transposed(l).lower[0] * a;
      }
      if i == n - 1 {
        assert rhs.upper[n - 1] == TridiagOperator.Transposed(l).upper[n - 1] * a;
      }
    }
  }

  /** What `Forward` as written computes: the forward step of the band-swapped operator. */
  lemma SwappedForwardStep(l: TridiagOperator.Tridiag, theta: real, dt: real, v: seq<real>)
    requires l.WellFormed() && |v| == l.Size() > 0
    requires TridiagOperator.Swapped(ImplicitPart(l, theta, dt)).Invertible()
    ensures var u := TridiagOperator.SolveStep(TridiagOperator.Swapped(ImplicitPart(l, theta, dt)), v).state;
            |u| == |v|
            && ForwardBalanced(dt, TridiagOperator.ApplyStep(TridiagOperator.Swapped(ExplicitPart(l, theta, dt)), u).state, v,
                               TridiagOperator.Affine(TridiagOperator.Swapped(l), u))
  {
    SwappedParts(l, theta, dt);
    ForwardStepEquation(TridiagOperator.Swapped(l), theta, dt, v);
  }

  /** What `ForwardTransposed` computes: the forward step of the transposed operator. */
  lemma TransposedForwardStep(l: TridiagOperator.Tridiag, theta: real, dt: real, v: seq<real>)
    requires l.WellFormed() && |v| == l.Size() > 0
    requires TridiagOperator.Transposed(ImplicitPart(l, theta, dt)).Invertible()
    ensures var u := TridiagOperator.SolveStep(TridiagOperator.Transposed(ImplicitPart(l, theta, dt)), v).state;
            |u| == |v|
            && ForwardBalanced(dt, TridiagOperator.ApplyStep(TridiagOperator.Transposed(ExplicitPart(l, theta, dt)), u).state, v,
                               TridiagOperator.Affine(TridiagOperator.Transposed(l), u))
  {
    TransposedParts(l, theta, dt);
    ForwardStepEquation(TridiagOperator.Transposed(l), theta, dt, v);
  }

  /** The two operators share no array. */
  ghost predicate Disjoint(p: TridiagOperator.TridiagOperator1D, q: TridiagOperator.TridiagOperator1D)
    reads p, q
  {
    p != q
    && {p.lower, p.diag, p.upper} !! {q.lower, q.diag, q.upper}
  }

  /** `ThetaScheme1D`: steps `dV/dt + L(V) = 0` over one time interval with weight `theta`
      on the implicit side. */
  class ThetaScheme1D {
    const discretizer: FiniteDiffDiscretizer1D
    const theta: real

    constructor (discretizer: FiniteDiffDiscretizer1D, theta: real)
      ensures this.discretizer == discretizer && this.theta == theta
    {
      this.discretizer := discretizer;
      this.theta := theta;
    }

    /** `BuildParts(start, end)`: one discretisation and an independent copy of it, scaled
        into the implicit and the explicit part. */
    method BuildParts(start: real, end: real) returns (implicitPart: TridiagOperator.TridiagOperator1D,
                                                      explicitPart: TridiagOperator.TridiagOperator1D)
      requires discretizer.Ready(start, end)
      ensures fresh(implicitPart) && fresh(implicitPart.lower) && fresh(implicitPart.diag) && fresh(implicitPart.upper)
      ensures fresh(explicitPart) && fresh(explicitPart.lower) && fresh(explicitPart.diag) && fresh(explicitPart.upper)
      ensures implicitPart.Valid() && explicitPart.Valid() && Disjoint(implicitPart, explicitPart)
      ensures implicitPart.Value() == ImplicitPart(discretizer.Operator(start, end), theta, end - start)
      ensures explicitPart.Value() == ExplicitPart(discretizer.Operator(start, end), theta, end - start)
    {
      var dt := end - start;
      ghost var l := discretizer.Operator(start, end);
      implicitPart := discretizer.Discretize(start, end);
      explicitPart := implicitPart.Copy();
      assert explicitPart.Value() == l;
      implicitPart.ScalePlusIdentity(theta * dt);
      assert implicitPart.Value() == ImplicitPart(l, theta, dt);
      explicitPart.ScalePlusIdentity(-(1.0 - theta) * dt);
      assert explicitPart.Value() == ExplicitPart(l, theta, dt);
    }

    /** `Backward(ref slice, start, end)`: applies the explicit part to the slice, then asks
        for the source term, which always fails; the slice keeps what the explicit part made
        of it. */
    method Backward(slice: array<real>, start: real, end: real) returns (r: Outcome)
      requires discretizer.Ready(start, end)
      modifies slice
      ensures var e := TridiagOperator.ApplyStep(ExplicitPart(discretizer.Operator(start, end), theta, end - start), old(slice[..]));
              slice[..] == e.state
              && r == if e.outcome.Fail? then e.outcome else Fail(NotImplemented)
    {
      var implicitPart, explicitPart := BuildParts(start, end);
      r := explicitPart.Apply(slice);
      if r.Fail? {
        return;
      }
      var source := discretizer.SourceTerm(start, end);
      match source
      case Failure(e) =>
        r := Fail(e);
    }

    /** `Forward(ref slice, start, end)` as written: calls `Adjoint` on both parts, whose
        shifts are zero, so each part has its `lower` and `upper` bands exchanged; then solves
        with the implicit part and applies the explicit part. */
    method Forward(slice: array<real>, start: real, end: real) returns (r: Outcome)
      requires discretizer.Ready(start, end)
      requires slice.Length == discretizer.pdeCoeffs.grid.size
               ==> TridiagOperator.Swapped(ImplicitPart(discretizer.Operator(start, end), theta, end - start)).Invertible()
      modifies slice
      ensures var l := discretizer.Operator(start, end);
              var s := TridiagOperator.SolveStep(TridiagOperator.Swapped(ImplicitPart(l, theta, end - start)), old(slice[..]));
              if s.outcome.Fail? then r == s.outcome && slice[..] == s.state
              else TridiagOperator.Step(r, slice[..]) == TridiagOperator.ApplyStep(TridiagOperator.Swapped(ExplicitPart(l, theta, end - start)), s.state)
    {
      var implicitPart, explicitPart := BuildParts(start, end);
      var explicitSwapped := explicitPart.Adjoint();
      var implicitSwapped := implicitPart.Adjoint();
      assert explicitSwapped == Pass && implicitSwapped == Pass;
      r := implicitPart.Solve(slice);
      if r.Fail? {
        return;
      }
      r := explicitPart.Apply(slice);
    }

    /** `Forward` with the transposes the adjoint is meant to produce: transposes both parts,
        whose shifts are zero, solves with the implicit part, then applies the explicit part. */
    method ForwardTransposed(slice: array<real>, start: real, end: real) returns (r: Outcome)
      requires discretizer.Ready(start, end)
      requires slice.Length == discretizer.pdeCoeffs.grid.size
               ==> TridiagOperator.Transposed(ImplicitPart(discretizer.Operator(start, end), theta, end - start)).Invertible()
      modifies slice
      ensures var l := discretizer.Operator(start, end);
              var s := TridiagOperator.SolveStep(TridiagOperator.Transposed(ImplicitPart(l, theta, end - start)), old(slice[..]));
              if s.outcome.Fail? then r == s.outcome && slice[..] == s.state
              else TridiagOperator.Step(r, slice[..]) == TridiagOperator.ApplyStep(TridiagOperator.Transposed(ExplicitPart(l, theta, end - start)), s.state)
    {
      var implicitPart, explicitPart := BuildParts(start, end);
      var explicitTransposed := explicitPart.Transpose();
      var implicitTransposed := implicitPart.Transpose();
      assert explicitTransposed == Pass && implicitTransposed == Pass;
      r := implicitPart.Solve(slice);
      if r.Fail? {
        return;
      }
      r := explicitPart.Apply(slice);
    }
  }
}
