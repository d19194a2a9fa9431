/** The affine tridiagonal operator `TridiagOperator1D`: three bands and two boundary
    shifts, `Apply(x) = M*x + inf*e_0 + sup*e_(n-1)`, its inverse `Solve`, the transforms
    `ScalePlusIdentity`, `Adjoint` and `Copy`, the ghost-point folding of an affine
    boundary constraint, and the two stateless boundary strategies built on it. */
module TridiagOperator {
  import opened Errors
  import ArrayCheck
  import VectorOp
  import VectorMapping
  import TridiagonalMatrix

  /** The operator as a value: the bands (row `i` is `lower[i]`, `diag[i]`, `upper[i]`)
      and the shifts added to the first and the last entry of every product. */
  datatype Tridiag = Tridiag(lower: seq<real>, diag: seq<real>, upper: seq<real>, infShift: real, supShift: real)
  {
    predicate WellFormed()
    {
      |lower| == |diag| && |upper| == |diag|
    }

    function Size(): nat
    {
      |lower|
    }

    /** The bands have no zero pivot, so `Solve` never divides by zero. */
    predicate Invertible()
    {
      TridiagonalMatrix.Nonsingular(lower, diag, upper)
    }
  }

  /** The outcome of a call that may fail part-way, with the vector it leaves behind. */
  datatype Step = Step(outcome: Outcome, state: seq<real>)

  // The shifts.

  /** `x` with `inf` added to its first entry, then `sup` to its last (the same entry when
      `|x| == 1`). */
  function Shifted(x: seq<real>, inf: real, sup: real): seq<real>
    requires |x| > 0
  {
    var y := x[0 := x[0] + inf];
    y[|y| - 1 := y[|y| - 1] + sup]
  }

  /** `x` with `inf` subtracted from its first entry, then `sup` from its last. */
  function Unshifted(x: seq<real>, inf: real, sup: real): seq<real>
    requires |x| > 0
  {
    var y := x[0 := x[0] - inf];
    y[|y| - 1 := y[|y| - 1] - sup]
  }

  lemma UnshiftUndoesShift(x: seq<real>, inf: real, sup: real)
    requires |x| > 0
    ensures Unshifted(Shifted(x, inf, sup), inf, sup) == x
    ensures Shifted(Unshifted(x, inf, sup), inf, sup) == x
  {
  }

  // Applying and solving, as values.

  /** `M*x + inf*e_0 + sup*e_(n-1)`. */
  function Affine(t: Tridiag, x: seq<real>): seq<real>
    requires t.WellFormed() && |x| == t.Size() > 0
  {
    Shifted(TridiagonalMatrix.Mult(t.lower, t.diag, t.upper, x), t.infShift, t.supShift)
  }

  /** The solution `z` of `Affine(t, z) == y`. */
  function Inverse(t: Tridiag, y: seq<real>): seq<real>
    requires t.WellFormed() && |y| == t.Size() > 0
  {
    TridiagonalMatrix.ThomasSolve(t.lower, t.diag, t.upper, Unshifted(y, t.infShift, t.supShift))
  }

  /** What `Apply(ref x)` does: an empty `x` passes the band multiply but then has no
      `x[0]`; a length other than the operator's size fails the multiply's size check;
      either way `x` is untouched. */
  function ApplyStep(t: Tridiag, x: seq<real>): Step
    requires t.WellFormed()
  {
    if |x| == 0 then Step(Fail(IndexOutOfRange), x)
    else if |x| != t.Size() then Step(Fail(SizeMismatch), x)
    else Step(Pass, Affine(t, x))
  }

  /** A call of `Apply` that passes leaves the shifted product. */
  lemma ApplyStepPasses(t: Tridiag, x: seq<real>, m: seq<real>)
    requires t.WellFormed() && |x| == t.Size() > 0
    requires m == TridiagonalMatrix.Mult(t.lower, t.diag, t.upper, x)
    ensures |m| == |x| && ApplyStep(t, x) == Step(Pass, Shifted(m, t.infShift, t.supShift))
  {
  }

  /** What `Solve(ref y)` does. The shifts are subtracted before the solve's size check, so a
      failing call can leave `y` partly changed: `y[0]` is shifted before `y[size-1]` is found
      out of range, and both are shifted before a longer `y` is refused. */
  function SolveStep(t: Tridiag, y: seq<real>): Step
    requires t.WellFormed() && (|y| == t.Size() > 0 ==> t.Invertible())
  {
    if |y| == 0 then Step(Fail(IndexOutOfRange), y)
    else
      var y1 := y[0 := y[0] - t.infShift];
      if t.Size() == 0 || t.Size() > |y| then Step(Fail(IndexOutOfRange), y1)
      else
        var y2 := y1[t.Size() - 1 := y1[t.Size() - 1] - t.supShift];
        if |y| != t.Size() then Step(Fail(SizeMismatch), y2)
        else Step(Pass, TridiagonalMatrix.ThomasSolve(t.lower, t.diag, t.upper, y2))
  }

  /** `Solve` is `Inverse` on vectors of the operator's size. */
  lemma SolveStepIsInverse(t: Tridiag, y: seq<real>)
    requires t.WellFormed() && t.Invertible() && |y| == t.Size() > 0
    ensures SolveStep(t, y) == Step(Pass, Inverse(t, y))
  {
  }

  /** Round trip: solving after applying gives back the vector. */
  lemma SolveAfterApply(t: Tridiag, x: seq<real>)
    requires t.WellFormed() && t.Invertible() && |x| == t.Size() > 0
    ensures SolveStep(t, ApplyStep(t, x).state) == Step(Pass, x)
  {
    var m := TridiagonalMatrix.Mult(t.lower, t.diag, t.upper, x);
    var y := Affine(t, x);
    assert ApplyStep(t, x).state == y;
    SolveStepIsInverse(t, y);
    UnshiftUndoesShift(m, t.infShift, t.supShift);
    TridiagonalMatrix.SolveAfterMult(t.lower, t.diag, t.upper, x);
    assert Inverse(t, y) == x;
  }

  /** Round trip: applying after solving gives back the vector. */
  lemma ApplyAfterSolve(t: Tridiag, y: seq<real>)
    requires t.WellFormed() && t.Invertible() && |y| == t.Size() > 0
    ensures ApplyStep(t, SolveStep(t, y).state) == Step(Pass, y)
  {
    var inf, sup := t.infShift, t.supShift;
    var u := Unshifted(y, inf, sup);
    SolveStepIsInverse(t, y);
    var z := TridiagonalMatrix.ThomasSolve(t.lower, t.diag, t.upper, u);
    assert SolveStep(t, y).state == z;
    TridiagonalMatrix.MultAfterSolve(t.lower, t.diag, t.upper, u);
    UnshiftUndoesShift(y, inf, sup);
    assert Affine(t, z) == Shifted(u, inf, sup) == y;
  }

  // The transforms, as values.

  /** `n` rows of the identity, with no shifts. */
  function Identity(n: nat): Tridiag
  {
    Tridiag(VectorMapping.Constant(n, 0.0), VectorMapping.Constant(n, 1.0), VectorMapping.Constant(n, 0.0), 0.0, 0.0)
  }

  /** `a*M + I`, with both shifts scaled by `a`. */
  function ScaledPlusIdentity(t: Tridiag, a: real): Tridiag
  {
    Tridiag(VectorOp.Scaled(t.lower, a), VectorOp.Offset(t.diag, a, 1.0), VectorOp.Scaled(t.upper, a),
            t.infShift * a, t.supShift * a)
  }

  /** The identity applies as the identity. */
  lemma IdentityActs(x: seq<real>)
    requires |x| > 0
    ensures Affine(Identity(|x|), x) == x
  {
    var t := Identity(|x|);
    forall i | 0 <= i < |x|
      ensures TridiagonalMatrix.Mult(t.lower, t.diag, t.upper, x)[i] == x[i]
    {
    }
  }

  /** Row `i` of the bands of `a*M + I` is `a` times row `i` of `M`, plus `x[i]`. */
  lemma ScaledRowAt(t: Tridiag, a: real, x: seq<real>, i: nat)
    requires t.WellFormed() && |x| == t.Size() && i < |x|
    ensures var s := ScaledPlusIdentity(t, a);
            TridiagonalMatrix.RowTimes(s.lower, s.diag, s.upper, x, i)
            == a * TridiagonalMatrix.RowTimes(t.lower, t.diag, t.upper, x, i) + 1.0 * x[i]
  {
    var s := ScaledPlusIdentity(t, a);
    var n := |x|;
    var l, d, u := t.lower[i], t.diag[i], t.upper[i];
    assert s.lower[i] == a * l && s.diag[i] == a * d + 1.0 && s.upper[i] == a * u;
    var xl := if i > 0 then x[i - 1] else 0.0;
    var xr := if i < n - 1 then x[i + 1] else 0.0;
    var ls, us := if i > 0 then l else 0.0, if i < n - 1 then u else 0.0;
    TridiagonalMatrix.RowWith(t.lower, t.diag, t.upper, x, i, ls, d, us, xl, xr);
    TridiagonalMatrix.RowWith(s.lower, s.diag, s.upper, x, i, a * ls, a * d + 1.0, a * us, xl, xr);
    ScaledRow(a, ls, d, us, xl, x[i], xr);
  }

  /** The bands of `a*M + I` multiply as `a*(M*x) + x`. */
  lemma ScaledMult(t: Tridiag, a: real, x: seq<real>)
    requires t.WellFormed() && |x| == t.Size()
    ensures var s := ScaledPlusIdentity(t, a);
            TridiagonalMatrix.Mult(s.lower, s.diag, s.upper, x)
            == VectorOp.Combined(TridiagonalMatrix.Mult(t.lower, t.diag, t.upper, x), a, x, 1.0)
  {
    var s := ScaledPlusIdentity(t, a);
    var m := TridiagonalMatrix.Mult(t.lower, t.diag, t.upper, x);
    var ms := TridiagonalMatrix.Mult(s.lower, s.diag, s.upper, x);
    forall i | 0 <= i < |x| ensures ms[i] == VectorOp.Combined(m, a, x, 1.0)[i] {
      ScaledRowAt(t, a, x, i);
    }
  }

  /** The boundary shifts of `a*M + I` are `a` times those of `M`. */
  lemma ScaledShift(m: seq<real>, x: seq<real>, a: real, inf: real, sup: real)
    requires |m| == |x| > 0
    ensures Shifted(VectorOp.Combined(m, a, x, 1.0), inf * a, sup * a)
            == VectorOp.Combined(Shifted(m, inf, sup), a, x, 1.0)
  {
    var lhs, rhs := Shifted(VectorOp.Combined(m, a, x, 1.0), inf * a, sup * a),
                    VectorOp.Combined(Shifted(m, inf, sup), a, x, 1.0);
    forall i | 0 <= i < |x| ensures lhs[i] == rhs[i] {
      ScaledShiftAt(m, x, a, inf, sup, i);
    }
  }

  /** Entry `i` of `ScaledShift`. */
  lemma ScaledShiftAt(m: seq<real>, x: seq<real>, a: real, inf: real, sup: real, i: nat)
    requires |m| == |x| > i
    ensures Shifted(VectorOp.Combined(m, a, x, 1.0), inf * a, sup * a)[i]
            == VectorOp.Combined(Shifted(m, inf, sup), a, x, 1.0)[i]
  {
    var c := VectorOp.Combined(m, a, x, 1.0);
    var sm := Shifted(m, inf, sup);
    ShiftedAt(c, inf * a, sup * a, i);
    ShiftedAt(m, inf, sup, i);
    CombinedAt(m, a, x, i);
    CombinedAt(sm, a, x, i);
    ScaledShiftRow(a, m[i], x[i], inf, sup, i == 0, i == |x| - 1, c[i], sm[i]);
  }

  /** `a*M + I` applies as `a * Affine(t, x) + x`. */
  lemma ScaledPlusIdentityActs(t: Tridiag, a: real, x: seq<real>)
    requires t.WellFormed() && |x| == t.Size() > 0
    ensures Affine(ScaledPlusIdentity(t, a), x) == VectorOp.Combined(Affine(t, x), a, x, 1.0)
  {
    var s := ScaledPlusIdentity(t, a);
    var inf, sup := t.infShift, t.supShift;
    var m := TridiagonalMatrix.Mult(t.lower, t.diag, t.upper, x);
    assert |s.lower| == |s.diag| == |s.upper| == |x|;
    assert s.infShift == inf * a && s.supShift == sup * a;
    ScaledMult(t, a, x);
    var c := VectorOp.Combined(m, a, x, 1.0);
    assert TridiagonalMatrix.Mult(s.lower, s.diag, s.upper, x) == c;
    assert Affine(s, x) == Shifted(c, inf * a, sup * a);
    ScaledShift(m, x, a, inf, sup);
    assert Affine(t, x) == Shifted(m, inf, sup);
  }

  /** Scaling by zero leaves exactly the identity, with zero shifts. */
  lemma ScaledByZeroIsIdentity(t: Tridiag)
    requires t.WellFormed()
    ensures ScaledPlusIdentity(t, 0.0) == Identity(t.Size())
  {
  }

  /** What `Adjoint` does to the bands: `lower` and `upper` trade places. */
  function Swapped(t: Tridiag): Tridiag
  {
    t.(lower := t.upper, upper := t.lower)
  }

  lemma SwappedTwice(t: Tridiag)
    ensures Swapped(Swapped(t)) == t
  {
  }

  /** Entry `(i, j)` of the matrix the bands stand for. */
  function Entry(t: Tridiag, i: int, j: int): real
    requires t.WellFormed() && 0 <= i < t.Size() && 0 <= j < t.Size()
  {
    if j == i - 1 then t.lower[i]
    else if j == i then t.diag[i]
    else if j == i + 1 then t.upper[i]
    else 0.0
  }

  /** The transpose: the sub-diagonal of row `i` is the super-diagonal of row `i-1`, the
      super-diagonal of row `i` the sub-diagonal of row `i+1`; the two entries outside the
      matrix are zero. */
  function Transposed(t: Tridiag): Tridiag
    requires t.WellFormed()
  {
    var n := t.Size();
    t.(lower := seq(n, i requires 0 <= i < n => if i == 0 then 0.0 else t.upper[i - 1]),
       upper := seq(n, i requires 0 <= i < n => if i == n - 1 then 0.0 else t.lower[i + 1]))
  }

  /** `Transposed` is the matrix transpose, entry by entry. */
  lemma TransposedEntries(t: Tridiag, i: int, j: int)
    requires t.WellFormed() && 0 <= i < t.Size() && 0 <= j < t.Size()
    ensures Transposed(t).WellFormed() && Entry(Transposed(t), i, j) == Entry(t, j, i)
  {
  }

  /** Transposing twice gives back the matrix (the bands outside it are cleared). */
  lemma TransposedTwice(t: Tridiag, i: int, j: int)
    requires t.WellFormed() && 0 <= i < t.Size() && 0 <= j < t.Size()
    ensures Transposed(Transposed(t)).WellFormed() && Entry(Transposed(Transposed(t)), i, j) == Entry(t, i, j)
  {
    TransposedEntries(t, j, i);
    TransposedEntries(Transposed(t), i, j);
  }

  /** Swapping the bands is not the transpose: for `M = [[1, 0], [1, 1]]` the swap gives the
      identity, while the transpose is `[[1, 1], [0, 1]]`. */
  lemma SwappedIsNotTransposed()
    ensures var t := Tridiag([0.0, 1.0], [1.0, 1.0], [0.0, 0.0], 0.0, 0.0);
            t.WellFormed() && Entry(Swapped(t), 0, 1) == 0.0 && Entry(Transposed(t), 0, 1) == 1.0
            && Entry(t, 1, 0) == 1.0
  {
  }

  // Folding a ghost-point constraint into the first or the last row.

  /** `SetInfBoundaryCondition(a, b, c)` on the bands: the ghost value
      `V[-1] = a*V[0] + b*V[1] + c` is folded into row 0. */
  function InfFolded(t: Tridiag, a: real, b: real, c: real): Tridiag
    requires t.WellFormed() && t.Size() > 0
  {
    var l0 := t.lower[0];
    Tridiag(t.lower[0 := 0.0], t.diag[0 := t.diag[0] + l0 * a], t.upper[0 := t.upper[0] + l0 * b],
            t.infShift + l0 * c, t.supShift)
  }

  /** `SetSupBoundaryCondition(a, b, c)` on the bands: the ghost value
      `V[n] = a*V[n-1] + b*V[n-2] + c` is folded into row `n-1`. */
  function SupFolded(t: Tridiag, a: real, b: real, c: real): Tridiag
    requires t.WellFormed() && t.Size() > 0
  {
    var n := t.Size() - 1;
    var un := t.upper[n];
    Tridiag(t.lower[n := t.lower[n] + un * b], t.diag[n := t.diag[n] + un * a], t.upper[n := 0.0],
            t.infShift, t.supShift + un * c)
  }

  /** After the fold, row 0 is the old row 0 with `V[-1] = a*V[0] + b*V[1] + c`, and every
      other row is unchanged. */
  lemma InfFoldRow(t: Tridiag, a: real, b: real, c: real, v: seq<real>)
    requires t.WellFormed() && |v| == t.Size() >= 2
    ensures InfFolded(t, a, b, c).WellFormed()
    ensures Affine(InfFolded(t, a, b, c), v)[0]
            == t.lower[0] * (a * v[0] + b * v[1] + c) + t.diag[0] * v[0] + t.upper[0] * v[1] + t.infShift
    ensures forall i :: 0 < i < |v| ==> Affine(InfFolded(t, a, b, c), v)[i] == Affine(t, v)[i]
  {
    var f := InfFolded(t, a, b, c);
    var mf := TridiagonalMatrix.Mult(f.lower, f.diag, f.upper, v);
    assert mf[0] == f.diag[0] * v[0] + f.upper[0] * v[1] by {
      TridiagonalMatrix.RowTimesAt(f.lower, f.diag, f.upper, v, 0);
    }
    FoldAlgebra(t.lower[0], t.diag[0], t.upper[0], t.infShift, a, b, c, v[0], v[1]);
  }

  /** After the fold, row `n-1` is the old row with `V[n] = a*V[n-1] + b*V[n-2] + c`, and
      every other row is unchanged. */
  lemma SupFoldRow(t: Tridiag, a: real, b: real, c: real, v: seq<real>)
    requires t.WellFormed() && |v| == t.Size() >= 2
    ensures SupFolded(t, a, b, c).WellFormed()
    ensures var n := |v| - 1;
            Affine(SupFolded(t, a, b, c), v)[n]
            == t.upper[n] * (a * v[n] + b * v[n - 1] + c) + t.lower[n] * v[n - 1] + t.diag[n] * v[n] + t.supShift
    ensures forall i :: 0 <= i < |v| - 1 ==> Affine(SupFolded(t, a, b, c), v)[i] == Affine(t, v)[i]
  {
    var n := |v| - 1;
    var f := SupFolded(t, a, b, c);
    var mf := TridiagonalMatrix.Mult(f.lower, f.diag, f.upper, v);
    assert mf[n] == f.lower[n] * v[n - 1] + f.diag[n] * v[n] by {
      TridiagonalMatrix.RowTimesAt(f.lower, f.diag, f.upper, v, n);
    }
    FoldAlgebra(t.upper[n], t.diag[n], t.lower[n], t.supShift, a, b, c, v[n], v[n - 1]);
  }

  // Arithmetic helpers: single rows of the transforms and folds above, with the entries
  // passed as scalars. They model nothing in the program.

  /** The row algebra of `a*M + I`. */
  lemma ScaledRow(a: real, l: real, d: real, u: real, xl: real, x: real, xr: real)
    ensures (a * l) * xl + (a * d + 1.0) * x + (a * u) * xr == a * (l * xl + d * x + u * xr) + 1.0 * x
  {
  }

  /** Entry `i` of `Shifted(x, inf, sup)`. */
  lemma ShiftedAt(x: seq<real>, inf: real, sup: real, i: nat)
    requires i < |x|
    ensures Shifted(x, inf, sup)[i] == x[i] + (if i == 0 then inf else 0.0) + (if i == |x| - 1 then sup else 0.0)
  {
  }

  /** The row algebra of the scaled shifts: `cm` is the row of `a*M + I` and `sm` the
      shifted row of `M`. */
  lemma ScaledShiftRow(a: real, m: real, x: real, inf: real, sup: real, first: bool, last: bool,
                       cm: real, sm: real)
    requires cm == a * m + 1.0 * x
    requires sm == m + (if first then inf else 0.0) + (if last then sup else 0.0)
    ensures cm + (if first then inf * a else 0.0) + (if last then sup * a else 0.0) == a * sm + 1.0 * x
  {
    var p, q := if first then inf else 0.0, if last then sup else 0.0;
    assert (if first then inf * a else 0.0) == p * a;
    assert (if last then sup * a else 0.0) == q * a;
    assert a * (m + p + q) == a * m + p * a + q * a;
  }

  /** Entry `i` of `a*m + x`. */
  lemma CombinedAt(m: seq<real>, a: real, x: seq<real>, i: nat)
    requires |m| == |x| > i
    ensures VectorOp.Combined(m, a, x, 1.0)[i] == a * m[i] + 1.0 * x[i]
  {
  }

  /** The row algebra of the fold: the folded coefficients applied to `v0` and `v1` are the
      old ones applied to the ghost value `g`, `v0` and `v1`. */
  lemma FoldAlgebra(l: real, d: real, u: real, s: real, a: real, b: real, c: real, v0: real, v1: real)
    ensures (d + l * a) * v0 + (u + l * b) * v1 + (s + l * c) == l * (a * v0 + b * v1 + c) + d * v0 + u * v1 + s
  {
  }

  /** `p * (u / p) == u`. */
  lemma Cancel(p: real, u: real)
    requires p != 0.0
    ensures p * (u / p) == u
  {
  }

  // The operator object.

  /** `x[0] += inf; x[n-1] += sup`, in that order. */
  method AddShifts(x: array<real>, inf: real, sup: real)
    requires x.Length > 0
    modifies x
    ensures x[..] == Shifted(old(x[..]), inf, sup)
  {
    ghost var x0 := x[..];
    var v := x[0] + inf;
    x[0] := v;
    assert x[..] == x0[0 := v];
    ghost var x1 := x[..];
    var w := x[x.Length - 1] + sup;
    x[x.Length - 1] := w;
    assert x[..] == x1[x.Length - 1 := w];
  }

  /** `TridiagOperator1D`: the band arrays are fixed at construction, their contents and the
      two shifts are updated in place by the transforms. */
  class TridiagOperator1D {
    const size: nat
    const lower: array<real>
    const diag: array<real>
    const upper: array<real>
    var infBoundaryShift: real
    var supBoundaryShift: real

    /** Every band has `size` entries, and the three bands are three different arrays. */
    ghost predicate Valid()
      reads this
    {
      lower.Length == size && diag.Length == size && upper.Length == size
      && lower != diag && lower != upper && diag != upper
    }

    /** The operator's current value. */
    function Value(): Tridiag
      reads this, lower, diag, upper
    {
      Tridiag(lower[..], diag[..], upper[..], infBoundaryShift, supBoundaryShift)
    }

    /** The constructor once its size check has passed: it keeps the arrays themselves. */
    constructor (lower: array<real>, diag: array<real>, upper: array<real>,
                 infBoundaryShift: real := 0.0, supBoundaryShift: real := 0.0)
      requires lower.Length == diag.Length == upper.Length
      requires lower != diag && lower != upper && diag != upper
      ensures Valid() && size == lower.Length
      ensures this.lower == lower && this.diag == diag && this.upper == upper
      ensures Value() == Tridiag(lower[..], diag[..], upper[..], infBoundaryShift, supBoundaryShift)
    {
      size := lower.Length;
      this.lower := lower;
      this.diag := diag;
      this.upper := upper;
      this.infBoundaryShift := infBoundaryShift;
      this.supBoundaryShift := supBoundaryShift;
    }

    /** `new TridiagOperator1D(lower, diag, upper, inf, sup)`: the size is `lower`'s length and
        the three bands must all have it; both shifts default to zero. */
    static method Create(lower: array<real>, diag: array<real>, upper: array<real>,
                         infBoundaryShift: real := 0.0, supBoundaryShift: real := 0.0)
      returns (r: Result<TridiagOperator1D>)
      requires lower != diag && lower != upper && diag != upper
      ensures r.Failure? <==> !(lower.Length == diag.Length == upper.Length)
      ensures r.Failure? ==> r.error == SizeMismatch
      ensures r.Success? ==> fresh(r.value) && r.value.Valid()
                             && r.value.lower == lower && r.value.diag == diag && r.value.upper == upper
                             && r.value.Value() == Tridiag(lower[..], diag[..], upper[..], infBoundaryShift, supBoundaryShift)
    {
      var check := ArrayCheck.EqualSize(lower.Length, [lower, diag, upper]);
      if check.Fail? {
        return Failure(check.error);
      }
      assert [lower, diag, upper][1] == diag && [lower, diag, upper][2] == upper;
      var op := new TridiagOperator1D(lower, diag, upper, infBoundaryShift, supBoundaryShift);
      return Success(op);
    }

    /** `Apply(ref x)`: `x` becomes `M*x` plus the shifts, as `ApplyStep` says, failing calls
        included. */
    method Apply(x: array<real>) returns (r: Outcome)
      requires Valid() && x != lower && x != diag && x != upper
      modifies x
      ensures Step(r, x[..]) == ApplyStep(old(Value()), old(x[..]))
    {
      ghost var t := Value();
      ghost var x0 := x[..];
      r := TridiagonalMatrix.MultTridiagonal(x, lower, diag, upper);
      if r.Fail? {
        return;
      }
      if x.Length == 0 {
        return Fail(IndexOutOfRange);
      }
      ghost var m := x[..];
      ApplyStepPasses(t, x0, m);
      AddShifts(x, infBoundaryShift, supBoundaryShift);
    }

    /** `Solve(ref y)`: the shifts are taken off, then `y` is solved for, as `SolveStep` says,
        failing calls included. */
    method Solve(y: array<real>) returns (r: Outcome)
      requires Valid() && y != lower && y != diag && y != upper
      requires y.Length == size > 0 ==> Value().Invertible()
      modifies y
      ensures Step(r, y[..]) == SolveStep(old(Value()), old(y[..]))
    {
      ghost var t := Value();
      ghost var y0 := y[..];
      if y.Length == 0 {
        return Fail(IndexOutOfRange);
      }
      var v := y[0] - infBoundaryShift;
      y[0] := v;
      assert y[..] == y0[0 := v];
      if size == 0 || size > y.Length {
        return Fail(IndexOutOfRange);
      }
      ghost var y1 := y[..];
      var w := y[size - 1] - supBoundaryShift;
      y[size - 1] := w;
      assert y[..] == y1[size - 1 := w];
      r := TridiagonalMatrix.SolveTridiagonal(y, lower, diag, upper);
    }

    /** `Adjoint()` as written: refused while a shift is non-zero; otherwise the contents of
        `lower` and `upper` trade places through a buffer, whose first fill fails on an
        empty operator before anything is changed. */
    method Adjoint() returns (r: Outcome)
      requires Valid()
      modifies lower, upper
      ensures r == if old(infBoundaryShift) != 0.0 || old(supBoundaryShift) != 0.0 then Fail(InvalidOperation)
                   else if size == 0 then Fail(IndexOutOfRange)
                   else Pass
      ensures Value() == if r.Pass? then Swapped(old(Value())) else old(Value())
    {
      if infBoundaryShift != 0.0 || supBoundaryShift != 0.0 {
        return Fail(InvalidOperation);
      }
      var buffer := new real[lower.Length];
      r := VectorMapping.FillValueFrom(buffer, lower);
      if r.Fail? {
        return;
      }
      var unused := VectorMapping.FillValueFrom(lower, upper);
      r := VectorMapping.FillValueFrom(upper, buffer);
    }

    /** The transpose the adjoint is meant to be: refused in the same cases as `Adjoint`,
        otherwise `Transposed` of the old value. */
    method Transpose() returns (r: Outcome)
      requires Valid()
      modifies lower, upper
      ensures r == if old(infBoundaryShift) != 0.0 || old(supBoundaryShift) != 0.0 then Fail(InvalidOperation)
                   else if size == 0 then Fail(IndexOutOfRange)
                   else Pass
      ensures Value() == if r.Pass? then Transposed(old(Value())) else old(Value())
    {
      if infBoundaryShift != 0.0 || supBoundaryShift != 0.0 {
        return Fail(InvalidOperation);
      }
      if size == 0 {
        return Fail(IndexOutOfRange);
      }
      ghost var t := Value();
      ghost var tt := Transposed(t);
      var buffer := VectorOp.CopyOf(lower);
      lower[0] := 0.0;
      var i := 1;
      while i < size
        invariant 1 <= i <= size
        invariant buffer[..] == t.lower
        invariant lower[0] == 0.0
        invariant forall k :: 1 <= k < i ==> lower[k] == t.upper[k - 1]
        invariant forall k :: 0 <= k < i - 1 ==> upper[k] == t.lower[k + 1]
        invariant forall k :: i - 1 <= k < size ==> upper[k] == t.upper[k]
      {
        lower[i] := upper[i - 1];
        upper[i - 1] := buffer[i];
        i := i + 1;
      }
      upper[size - 1] := 0.0;
      assert lower[..] == tt.lower;
      assert upper[..] == tt.upper;
      r := Pass;
    }

    /** `ScalePlusIdentity(a)`: the operator becomes `a*M + I`, its shifts `a` times theirs. */
    method ScalePlusIdentity(a: real)
      requires Valid()
      modifies this, lower, diag, upper
      ensures Valid() && Value() == ScaledPlusIdentity(old(Value()), a)
    {
      ghost var t := Value();
      VectorOp.MultKernel(lower, a);
      assert lower[..] == VectorOp.Scaled(t.lower, a);
      VectorOp.MultKernel(upper, a);
      assert upper[..] == VectorOp.Scaled(t.upper, a);
      VectorOp.AxPlusBKernel(diag, a, 1.0);
      assert diag[..] == VectorOp.Offset(t.diag, a, 1.0);
      infBoundaryShift := infBoundaryShift * a;
      supBoundaryShift := supBoundaryShift * a;
      assert Value() == ScaledPlusIdentity(t, a);
    }

    /** `Copy()`: a new operator over new copies of the bands, with the same value. */
    method Copy() returns (op: TridiagOperator1D)
      requires Valid()
      ensures fresh(op) && fresh(op.lower) && fresh(op.diag) && fresh(op.upper)
      ensures op.Valid() && op.Value() == Value()
    {
      var l := VectorOp.CopyOf(lower);
      var d := VectorOp.CopyOf(diag);
      var u := VectorOp.CopyOf(upper);
      op := new TridiagOperator1D(l, d, u, infBoundaryShift, supBoundaryShift);
    }

    /** `SetInfBoundaryCondition(a, b, c)`: folds `V[-1] = a*V[0] + b*V[1] + c` into row 0;
        an empty operator has no `lower[0]`. */
    method SetInfBoundaryCondition(a: real, b: real, c: real) returns (r: Outcome)
      requires Valid()
      modifies this, lower, diag, upper
      ensures Valid()
      ensures r == if size == 0 then Fail(IndexOutOfRange) else Pass
      ensures Value() == if r.Pass? then InfFolded(old(Value()), a, b, c) else old(Value())
    {
      if size == 0 {
        return Fail(IndexOutOfRange);
      }
      ghost var t := Value();
      var l0 := lower[0];
      lower[0] := 0.0;
      assert lower[..] == t.lower[0 := 0.0];
      var d0 := diag[0] + l0 * a;
      diag[0] := d0;
      assert diag[..] == t.diag[0 := d0];
      var u0 := upper[0] + l0 * b;
      upper[0] := u0;
      assert upper[..] == t.upper[0 := u0];
      infBoundaryShift := infBoundaryShift + l0 * c;
      r := Pass;
      ghost var f := InfFolded(t, a, b, c);
      assert f.diag[0] == d0 && f.upper[0] == u0 && f.infShift == infBoundaryShift;
      assert f.lower == lower[..] && f.diag == diag[..] && f.upper == upper[..];
    }

    /** `SetSupBoundaryCondition(a, b, c)`: folds `V[n] = a*V[n-1] + b*V[n-2] + c` into the
        last row; an empty operator has no `upper[-1]`. */
    method SetSupBoundaryCondition(a: real, b: real, c: real) returns (r: Outcome)
      requires Valid()
      modifies this, lower, diag, upper
      ensures Valid()
      ensures r == if size == 0 then Fail(IndexOutOfRange) else Pass
      ensures Value() == if r.Pass? then SupFolded(old(Value()), a, b, c) else old(Value())
    {
      if size == 0 {
        return Fail(IndexOutOfRange);
      }
      ghost var t := Value();
      var n := upper.Length - 1;
      var un := upper[n];
      upper[n] := 0.0;
      assert upper[..] == t.upper[n := 0.0];
      var dn := diag[n] + un * a;
      diag[n] := dn;
      assert diag[..] == t.diag[n := dn];
      var ln := lower[n] + un * b;
      lower[n] := ln;
      assert lower[..] == t.lower[n := ln];
      supBoundaryShift := supBoundaryShift + un * c;
      r := Pass;
      ghost var f := SupFolded(t, a, b, c);
      assert f.diag[n] == dn && f.lower[n] == ln && f.supShift == supBoundaryShift;
      assert f.lower == lower[..] && f.diag == diag[..] && f.upper == upper[..];
    }
  }

  // The boundary strategies.

  /** `BoundaryCondition1D`: `NoConvexity` imposes `V'' = 0` at the ends of the grid,
      `Exponential` imposes `V'' = V'`. Each fixes the ghost value beyond an end as an
      affine function of the two nearest values and folds it into the operator. */
  datatype BoundaryCondition1D = NoConvexity | Exponential
  {
    /** Whether the lower-end coefficients for grid step `dx` exist: the exponential ones
        divide by `1 + dx`. */
    predicate InfDefined(dx: real)
    {
      this.Exponential? ==> dx != -1.0
    }

    /** Whether the upper-end coefficients for grid step `dx` exist: the exponential ones
        divide by `dx - 1`. */
    predicate SupDefined(dx: real)
    {
      this.Exponential? ==> dx != 1.0
    }

    /** The coefficients `(a, b, c)` of `V[-1] = a*V[0] + b*V[1] + c`. */
    function InfCoefficients(dx: real): (real, real, real)
      requires InfDefined(dx)
    {
      match this
      case NoConvexity => (2.0, -1.0, 0.0)
      case Exponential => ((2.0 + dx) / (1.0 + dx), -1.0 / (1.0 + dx), 0.0)
    }

    /** The coefficients `(a, b, c)` of `V[n] = a*V[n-1] + b*V[n-2] + c`. */
    function SupCoefficients(dx: real): (real, real, real)
      requires SupDefined(dx)
    {
      match this
      case NoConvexity => (2.0, -1.0, 0.0)
      case Exponential => ((dx - 2.0) / (dx - 1.0), 1.0 / (dx - 1.0), 0.0)
    }

    /** `SetInf(op, dx)`: folds the lower-end constraint into `op`. */
    method SetInf(op: TridiagOperator1D, dx: real) returns (r: Outcome)
      requires op.Valid() && InfDefined(dx)
      modifies op, op.lower, op.diag, op.upper
      ensures op.Valid()
      ensures r == if op.size == 0 then Fail(IndexOutOfRange) else Pass
      ensures var k := InfCoefficients(dx);
              op.Value() == if r.Pass? then InfFolded(old(op.Value()), k.0, k.1, k.2) else old(op.Value())
    {
      var k := InfCoefficients(dx);
      r := op.SetInfBoundaryCondition(k.0, k.1, k.2);
    }

    /** `SetSup(op, dx)`: folds the upper-end constraint into `op`. */
    method SetSup(op: TridiagOperator1D, dx: real) returns (r: Outcome)
      requires op.Valid() && SupDefined(dx)
      modifies op, op.lower, op.diag, op.upper
      ensures op.Valid()
      ensures r == if op.size == 0 then Fail(IndexOutOfRange) else Pass
      ensures var k := SupCoefficients(dx);
              op.Value() == if r.Pass? then SupFolded(old(op.Value()), k.0, k.1, k.2) else old(op.Value())
    {
      var k := SupCoefficients(dx);
      r := op.SetSupBoundaryCondition(k.0, k.1, k.2);
    }
  }

  /** The ghost value `V[-1]` that `bc` assigns from `V[0] = v0` and `V[1] = v1`. */
  function InfGhost(bc: BoundaryCondition1D, dx: real, v0: real, v1: real): real
    requires bc.InfDefined(dx)
  {
    var k := bc.InfCoefficients(dx);
    k.0 * v0 + k.1 * v1 + k.2
  }

  /** The ghost value `V[n]` that `bc` assigns from `V[n-1] = vn` and `V[n-2] = vm`. */
  function SupGhost(bc: BoundaryCondition1D, dx: real, vn: real, vm: real): real
    requires bc.SupDefined(dx)
  {
    var k := bc.SupCoefficients(dx);
    k.0 * vn + k.1 * vm + k.2
  }

  /** At the lower end the ghost value makes the second difference `g - 2*v0 + v1` vanish
      (`NoConvexity`) or equal `dx` times the backward difference `v0 - g` (`Exponential`):
      divided by `dx*dx`, the discrete `V'' = 0` and `V'' = V'`. */
  lemma InfGhostCondition(bc: BoundaryCondition1D, dx: real, v0: real, v1: real)
    requires bc.InfDefined(dx)
    ensures var g := InfGhost(bc, dx, v0, v1);
            match bc
            case NoConvexity => g - 2.0 * v0 + v1 == 0.0
            case Exponential => g - 2.0 * v0 + v1 == dx * (v0 - g)
  {
    if bc.Exponential? {
      var p := 1.0 + dx;
      var a, b := (2.0 + dx) / p, -1.0 / p;
      var g := a * v0 + b * v1;
      assert InfGhost(bc, dx, v0, v1) == g;
      Cancel(p, 2.0 + dx);
      Cancel(p, -1.0);
      assert p * g == (p * a) * v0 + (p * b) * v1;
      assert p * g == (2.0 + dx) * v0 - v1;
    }
  }

  /** At the upper end the ghost value makes the second difference `g - 2*vn + vm` vanish
      (`NoConvexity`) or equal `dx` times the forward difference `g - vn` (`Exponential`). */
  lemma SupGhostCondition(bc: BoundaryCondition1D, dx: real, vn: real, vm: real)
    requires bc.SupDefined(dx)
    ensures var g := SupGhost(bc, dx, vn, vm);
            match bc
            case NoConvexity => g - 2.0 * vn + vm == 0.0
            case Exponential => g - 2.0 * vn + vm == dx * (g - vn)
  {
    if bc.Exponential? {
      var p := dx - 1.0;
      var a, b := (dx - 2.0) / p, 1.0 / p;
      var g := a * vn + b * vm;
      assert SupGhost(bc, dx, vn, vm) == g;
      Cancel(p, dx - 2.0);
      Cancel(p, 1.0);
      assert p * g == (p * a) * vn + (p * b) * vm;
      assert p * g == (dx - 2.0) * vn + vm;
    }
  }

  /** After `SetInf`, row 0 of the operator is its old row 0 evaluated with the ghost value
      `InfGhost` in place of `V[-1]`; the other rows are unchanged. */
  lemma InfConditionApplies(bc: BoundaryCondition1D, dx: real, t: Tridiag, v: seq<real>)
    requires bc.InfDefined(dx) && t.WellFormed() && |v| == t.Size() >= 2
    ensures var k := bc.InfCoefficients(dx);
            var f := InfFolded(t, k.0, k.1, k.2);
            f.WellFormed()
            && Affine(f, v)[0]
               == t.lower[0] * InfGhost(bc, dx, v[0], v[1]) + t.diag[0] * v[0] + t.upper[0] * v[1] + t.infShift
            && forall i :: 0 < i < |v| ==> Affine(f, v)[i] == Affine(t, v)[i]
  {
    var k := bc.InfCoefficients(dx);
    InfFoldRow(t, k.0, k.1, k.2, v);
  }

  /** After `SetSup`, the last row of the operator is its old last row evaluated with the ghost
      value `SupGhost` in place of `V[n]`; the other rows are unchanged. */
  lemma SupConditionApplies(bc: BoundaryCondition1D, dx: real, t: Tridiag, v: seq<real>)
    requires bc.SupDefined(dx) && t.WellFormed() && |v| == t.Size() >= 2
    ensures var k := bc.SupCoefficients(dx);
            var f := SupFolded(t, k.0, k.1, k.2);
            var n := |v| - 1;
            f.WellFormed()
            && Affine(f, v)[n]
               == t.upper[n] * SupGhost(bc, dx, v[n], v[n - 1]) + t.lower[n] * v[n - 1] + t.diag[n] * v[n] + t.supShift
            && forall i :: 0 <= i < n ==> Affine(f, v)[i] == Affine(t, v)[i]
  {
    var k := bc.SupCoefficients(dx);
    SupFoldRow(t, k.0, k.1, k.2, v);
  }
}
