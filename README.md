# quant-core-algo: the one-dimensional finite-difference PDE engine, in Dafny

This project models the core of the `quant_core_algo` library, written in C#. That core is a
stepper for `dV/dt + L(V) = 0` on a regular one-dimensional grid. `L` is discretised by an
upwind finite-difference stencil into a tridiagonal operator with two boundary shifts. A theta
scheme then steps the solution over a time interval by applying and solving with
`a*L + I`-shaped operators. All arithmetic is over Dafny's `real`.

The model follows the source file by file, one module per file:

- `Errors` (`errors.dfy`): the exceptions the source throws, as values.
  - `Outcome` is `Pass` or `Fail(error)`; `Result<T>` is `Success(value)` or `Failure(error)`.
  - The errors are `SizeMismatch` ("Incompatible size"), `IndexOutOfRange` (`&x[0]` or `x[0]`
    on an empty array), `NotImplemented` and `InvalidOperation`.
- `ArrayCheck` (`array_check.dfy`): the length validator, as functions.
- `VectorOp` (`vector_op.dfy`): the in-place element-wise routines `Add`, `Sub`, `Mult` and
  `AxPlusBy`, in 1-D and 2-D.
  - Each is a method with a loop, proved against a sequence function (`Plus`, `Minus`,
    `Scaled`, `Combined`).
  - These functions carry their own lemmas: `Sub` undoes `Add`, scaling composes, and the
    combination specialises.
- `VectorMapping` (`vector_mapping.dfy`): `FillValue`, the constant fill and the
  array-to-array copy.
- `TridiagonalMatrix` (`tridiagonal_matrix.dfy`): the in-place band multiply carrying
  `xPrevious`, and the in-place Thomas solve with its `cprime` buffer.
  - Both are proved against `Mult` and `ThomasSolve` on sequences.
  - Both round trips `ThomasSolve(Mult(x)) == x` and `Mult(ThomasSolve(y)) == y` are proved
    for bands whose pivots are non-zero.
- `TridiagOperator` (`tridiag_operator.dfy`): the class `TridiagOperator1D`.
  - Its fields are three band arrays fixed at construction and two mutable boundary shifts.
  - Its pure value is `Tridiag`. Every method is stated as a change of that value:
    - `Apply` and `Solve` follow `ApplyStep` and `SolveStep`, error paths included;
    - `ScalePlusIdentity` gives `ScaledPlusIdentity`;
    - `Adjoint` gives `Swapped`;
    - the boundary folds give `InfFolded` and `SupFolded`.
  - The boundary strategies `NoConvexity` and `Exponential` are a datatype. For each one, the
    ghost value it imposes is proved to realise the discrete `V'' = 0` or `V'' = V'`.
- `PdeStepSolver` (`pde_step_solver.dfy`): `RegularGrid1D`, the upwind stencil and
  `FiniteDifference`, the discretiser, and `ThetaScheme1D` with `BuildParts`, `Backward` and
  `Forward` (and `ForwardTransposed`, the same step with the corrected transpose).

Conventions:

- An exception in the source is a returned `Outcome` or `Result`.
- Once an error has occurred, the state is whatever the source leaves behind at that point.
  For example, `Solve` has already subtracted the lower shift from `y[0]` when it finds
  `y[size-1]` out of range.
- A division by zero gives IEEE infinities or NaN in the source, not an exception. Here it is
  excluded by a `requires`: non-zero pivots, a non-zero grid step, and `dx != -1` or `dx != 1`
  for the exponential boundary.

`ThetaSchemeEquation` and `ThetaStepBalanced` state the time-step equation the code
implements. Take `L` to be the operator `Discretize` returns, `v` the slice before the step
and `w` after it. The equation is `(w - v) + theta*dt*L(w) + (1-theta)*dt*L(v) == 0` at every
node. The class comment of `ThetaScheme1D` writes the `L` terms with the opposite sign. The
two agree when the coefficient sampler supplies the coefficients of `-L`. The sampler is an
input to this model, so which sign is meant cannot be decided here.

## Model

| member | source | states |
|---|---|---|
| ArrayCheck.AllOfLength | src/quant-core-algo/quant-core-algo/ArrayCheck.cs:12-16 | passes exactly when every array has length `size`; otherwise fails with a size error |
| ArrayCheck.EqualSize | src/quant-core-algo/quant-core-algo/ArrayCheck.cs:7-17 | passes exactly when at least one array is given and every length equals `size`; otherwise a size error. Only lengths are read |
| ArrayCheck.EqualSize2D | src/quant-core-algo/quant-core-algo/ArrayCheck.cs:18-21 | always fails as not implemented |
| VectorOp.MinusUndoesPlus | src/quant-core-algo/quant-core-algo/VectorOp.cs:8-17 | subtracting `y` from a prefix undoes adding it |
| VectorOp.PlusUndoesMinus | src/quant-core-algo/quant-core-algo/VectorOp.cs:8-17 | adding `y` to a prefix undoes subtracting it |
| VectorOp.ScaledTwice | src/quant-core-algo/quant-core-algo/VectorOp.cs:18-22 | scaling by `a` and then by `b` is scaling by `a*b` |
| VectorOp.CombinedSpecialises | src/quant-core-algo/quant-core-algo/VectorOp.cs:23-29 | `a*x + b*y` with `(1,1)`, `(1,-1)` and `(a,0)` is the sum, the difference and the scaling |
| VectorOp.AddKernel | src/quant-core-algo/quant-core-algo/VectorOp.cs:8-12 | `x[i] += y[i]` on the first `size` entries; the rest of `x` is unchanged |
| VectorOp.SubKernel | src/quant-core-algo/quant-core-algo/VectorOp.cs:13-17 | `x[i] -= y[i]` on the first `size` entries; the rest of `x` is unchanged |
| VectorOp.MultKernel | src/quant-core-algo/quant-core-algo/VectorOp.cs:18-22 | every entry becomes `a*x[i]` |
| VectorOp.AxPlusByKernel | src/quant-core-algo/quant-core-algo/VectorOp.cs:23-29 | every entry becomes `a*x[i] + b*y[i]` |
| VectorOp.AxPlusBKernel | src/quant-core-algo/quant-core-algo/TridiagOperator1D.cs:54 | every entry becomes `a*x[i] + b` |
| VectorOp.CopyOf | src/quant-core-algo/quant-core-algo/TridiagOperator1D.cs:60 | a fresh array with the same entries |
| VectorOp.Pointwise2D | src/quant-core-algo/quant-core-algo/VectorOp.cs:40-50 | every matrix entry becomes `f` of itself and the matching entry of `y`; `y` is unchanged when it is another matrix |
| VectorOp.Add | src/quant-core-algo/quant-core-algo/VectorOp.cs:32-39 | an index error when either array is empty, with nothing changed; otherwise `y` is added to the first `min(|x|,|y|)` entries and there is no size error |
| VectorOp.Sub | src/quant-core-algo/quant-core-algo/VectorOp.cs:52-59 | the same for subtraction |
| VectorOp.Mult | src/quant-core-algo/quant-core-algo/VectorOp.cs:72-78 | an index error on an empty array; otherwise every entry is scaled by `a` |
| VectorOp.AxPlusBy | src/quant-core-algo/quant-core-algo/VectorOp.cs:87-96 | a size error when the lengths differ, an index error when both are empty, otherwise `x = a*x + b*y`; `x` is untouched on failure |
| VectorOp.Add2D | src/quant-core-algo/quant-core-algo/VectorOp.cs:40-50 | a size error unless both dimensions agree, then an index error on an empty matrix, otherwise element-wise addition; untouched on failure |
| VectorOp.Sub2D | src/quant-core-algo/quant-core-algo/VectorOp.cs:60-70 | the same for subtraction |
| VectorOp.Mult2D | src/quant-core-algo/quant-core-algo/VectorOp.cs:79-85 | an index error on an empty matrix; otherwise every entry is scaled by `a` |
| VectorOp.AxPlusBy2D | src/quant-core-algo/quant-core-algo/VectorOp.cs:97-107 | a size error unless the shapes agree, an index error on an empty matrix, otherwise `x = a*x + b*y` element-wise |
| VectorMapping.FillValue | src/quant-core-algo/quant-core-algo/VectorMapping.cs:25-31 | an index error on an empty array; otherwise every entry equals `val`, so the fill is idempotent |
| VectorMapping.FillValue2D | src/quant-core-algo/quant-core-algo/VectorMapping.cs:32-38 | an index error on an empty matrix; otherwise all `nbRows*nbCols` entries equal `val` |
| VectorMapping.FillValueFrom | src/quant-core-algo/quant-core-algo/VectorMapping.cs:40-48 | a size error unless the lengths agree, an index error when both are empty, otherwise `x` equals the old `val`; `val` is unchanged when it is another array |
| VectorMapping.FillValueFrom2D | src/quant-core-algo/quant-core-algo/VectorMapping.cs:49-52 | always fails as not implemented |
| TridiagonalMatrix.SingleEntry | src/quant-core-algo/quant-core-algo/TridiagonalMatrix.cs:9-13 | on one entry the multiply gives `x[0]*b[0]`, and the solve `x[0]/b[0]` when `b[0]` is non-zero |
| TridiagonalMatrix.MultIgnoresCorners | src/quant-core-algo/quant-core-algo/TridiagonalMatrix.cs:40-49 | the product does not depend on `a[0]` or `c[n-1]` |
| TridiagonalMatrix.RowTimesAt | src/quant-core-algo/quant-core-algo/TridiagonalMatrix.cs:40-49 | row `i` of the product is `a[i]*x[i-1] + b[i]*x[i] + c[i]*x[i+1]`, with the terms outside the vector dropped |
| TridiagonalMatrix.PivotIdentities | src/quant-core-algo/quant-core-algo/TridiagonalMatrix.cs:17-26 | with a non-zero pivot `p`: `p*c'[i] == c[i]` and `p*x'[i] == x[i] - a[i]*x'[i-1]` |
| TridiagonalMatrix.DefinitionsSweep | src/quant-core-algo/quant-core-algo/TridiagonalMatrix.cs:15-30 | for non-singular bands the sweep and back-substitution definitions satisfy the row relations of the algorithm |
| TridiagonalMatrix.SweptRowSolves | src/quant-core-algo/quant-core-algo/TridiagonalMatrix.cs:53-59 | a back-substituted sweep satisfies row `i` of `M*z == y` |
| TridiagonalMatrix.MultAfterSolve | src/quant-core-algo/quant-core-algo/TridiagonalMatrix.cs:53-59 | for non-zero pivots `M*(M^-1*y) == y` |
| TridiagonalMatrix.SolveAfterMult | src/quant-core-algo/quant-core-algo/TridiagonalMatrix.cs:53-59 | for non-zero pivots `M^-1*(M*x) == x`, so the solution is unique |
| TridiagonalMatrix.ThomasSweep | src/quant-core-algo/quant-core-algo/TridiagonalMatrix.cs:15-30 | non-singular bands have a forward sweep in the kernel's form and a back-substitution from it |
| TridiagonalMatrix.KernelSolves | src/quant-core-algo/quant-core-algo/TridiagonalMatrix.cs:21-30 | vectors related as the kernel computes them are the Thomas solution |
| TridiagonalMatrix.MultKernel | src/quant-core-algo/quant-core-algo/TridiagonalMatrix.cs:32-50 | the streamed multiply with one saved scalar leaves exactly `M*old(x)`; the bands are unchanged |
| TridiagonalMatrix.SolveKernel | src/quant-core-algo/quant-core-algo/TridiagonalMatrix.cs:6-31 | the sweep and back-substitution leave exactly `M^-1*old(x)`, the one-entry case included |
| TridiagonalMatrix.MultSweep | src/quant-core-algo/quant-core-algo/TridiagonalMatrix.cs:43-49 | with row 0 already written and `xPrevious` holding the old `x[0]`, the interior rows and the last row leave exactly `M*y` |
| TridiagonalMatrix.SweepForward | src/quant-core-algo/quant-core-algo/TridiagonalMatrix.cs:15-26 | the forward sweep leaves the modified upper band in `cprime` and the swept right-hand side in `x`, both as the sweep relations define them |
| TridiagonalMatrix.BackSubstitute | src/quant-core-algo/quant-core-algo/TridiagonalMatrix.cs:29-30 | back-substitution from the last row leaves the vector that the sweep back-substitutes to |
| TridiagonalMatrix.MultTridiagonal | src/quant-core-algo/quant-core-algo/TridiagonalMatrix.cs:86-95 | an empty `x` is left as it is; a band of another length is a size error with `x` untouched; otherwise `x` becomes `M*x` |
| TridiagonalMatrix.SolveTridiagonal | src/quant-core-algo/quant-core-algo/TridiagonalMatrix.cs:64-73 | the same checks, then `x` becomes `M^-1*x` |
| TridiagOperator.UnshiftUndoesShift | src/quant-core-algo/quant-core-algo/TridiagOperator1D.cs:27-38 | subtracting the shifts undoes adding them, both ways round |
| TridiagOperator.ApplyStepPasses | src/quant-core-algo/quant-core-algo/TridiagOperator1D.cs:27-32 | on a vector of the operator's size, `Apply` passes and leaves the product plus the shifts |
| TridiagOperator.SolveStepIsInverse | src/quant-core-algo/quant-core-algo/TridiagOperator1D.cs:33-38 | on a vector of the operator's size, `Solve` passes and leaves `M^-1*(y - shifts)` |
| TridiagOperator.SolveAfterApply | src/quant-core-algo/quant-core-algo/TridiagOperator1D.cs:27-38 | `Solve(Apply(x)) == x` for an invertible operator |
| TridiagOperator.ApplyAfterSolve | src/quant-core-algo/quant-core-algo/TridiagOperator1D.cs:27-38 | `Apply(Solve(y)) == y` for an invertible operator |
| TridiagOperator.IdentityActs | src/quant-core-algo/quant-core-algo/TridiagOperator1D.cs:50-57 | the identity operator maps every vector to itself |
| TridiagOperator.ScaledRowAt | src/quant-core-algo/quant-core-algo/TridiagOperator1D.cs:50-54 | row `i` of `a*M + I` applied to `x` is `a` times row `i` of `M*x`, plus `x[i]` |
| TridiagOperator.ScaledMult | src/quant-core-algo/quant-core-algo/TridiagOperator1D.cs:50-54 | `(a*M + I)*x == a*(M*x) + x` |
| TridiagOperator.ScaledShift | src/quant-core-algo/quant-core-algo/TridiagOperator1D.cs:55-56 | scaling the shifts by `a` commutes with the combination `a*m + x` |
| TridiagOperator.ScaledPlusIdentityActs | src/quant-core-algo/quant-core-algo/TridiagOperator1D.cs:50-57 | the scaled operator, shifts included, maps `x` to `a*L(x) + x` |
| TridiagOperator.ScaledByZeroIsIdentity | src/quant-core-algo/quant-core-algo/TridiagOperator1D.cs:50-57 | `ScalePlusIdentity(0)` gives exactly the identity with zero shifts |
| TridiagOperator.SwappedTwice | src/quant-core-algo/quant-core-algo/TridiagOperator1D.cs:40-49 | swapping the bands twice restores the operator |
| TridiagOperator.TransposedEntries | src/quant-core-algo/quant-core-algo/TridiagOperator1D.cs:40-49 | entry `(i,j)` of the transpose is entry `(j,i)` of the operator |
| TridiagOperator.TransposedTwice | src/quant-core-algo/quant-core-algo/TridiagOperator1D.cs:40-49 | transposing twice restores every entry |
| TridiagOperator.SwappedIsNotTransposed | src/quant-core-algo/quant-core-algo/TridiagOperator1D.cs:45-48 | for `M = [[1,0],[1,1]]` the band swap differs from the transpose at entry `(0,1)` |
| TridiagOperator.InfFoldRow | src/quant-core-algo/quant-core-algo/TridiagOperator1D.cs:63-78 | after the fold, row 0 is the old row with `V[-1] = a*V[0] + b*V[1] + c`, and every other row is unchanged |
| TridiagOperator.SupFoldRow | src/quant-core-algo/quant-core-algo/TridiagOperator1D.cs:80-96 | after the fold, the last row is the old row with `V[n] = a*V[n-1] + b*V[n-2] + c`, and every other row is unchanged |
| TridiagOperator.AddShifts | src/quant-core-algo/quant-core-algo/TridiagOperator1D.cs:30-31 | adds the lower shift to the first entry, then the upper shift to the last |
| TridiagOperator.TridiagOperator1D.constructor | src/quant-core-algo/quant-core-algo/TridiagOperator1D.cs:15-25 | keeps the given arrays by reference; the size is `lower`'s length, and both shifts default to zero |
| TridiagOperator.TridiagOperator1D.Create | src/quant-core-algo/quant-core-algo/TridiagOperator1D.cs:15-25 | fails with a size error exactly when the three bands do not all have `lower`'s length; otherwise an operator over those arrays with the given shifts, zero by default |
| TridiagOperator.TridiagOperator1D.Apply | src/quant-core-algo/quant-core-algo/TridiagOperator1D.cs:27-32 | `x` and the outcome are `ApplyStep` of the operator: `M*x` plus the shifts, or the size and index errors with `x` untouched |
| TridiagOperator.TridiagOperator1D.Solve | src/quant-core-algo/quant-core-algo/TridiagOperator1D.cs:33-38 | `y` and the outcome are `SolveStep`: the shifts are subtracted, then `y` is solved for; a failing call keeps the shifts already subtracted |
| TridiagOperator.TridiagOperator1D.Adjoint | src/quant-core-algo/quant-core-algo/TridiagOperator1D.cs:40-49 | refused when a shift is non-zero; an index error on an empty operator; otherwise the contents of `lower` and `upper` trade places and `diag` is unchanged |
| TridiagOperator.TridiagOperator1D.Transpose | src/quant-core-algo/quant-core-algo/TridiagOperator1D.cs:40-49 | refused in the same cases; otherwise the operator becomes its transpose |
| TridiagOperator.TridiagOperator1D.ScalePlusIdentity | src/quant-core-algo/quant-core-algo/TridiagOperator1D.cs:50-57 | the operator becomes `a*M + I` and both shifts are multiplied by `a` |
| TridiagOperator.TridiagOperator1D.Copy | src/quant-core-algo/quant-core-algo/TridiagOperator1D.cs:58-61 | a new operator over fresh arrays with the same bands and shifts, so it shares nothing with the original |
| TridiagOperator.TridiagOperator1D.SetInfBoundaryCondition | src/quant-core-algo/quant-core-algo/TridiagOperator1D.cs:70-78 | an index error on an empty operator; otherwise `lower[0] = 0`, `diag[0] += l0*a`, `upper[0] += l0*b`, `infShift += l0*c`, and nothing else changes |
| TridiagOperator.TridiagOperator1D.SetSupBoundaryCondition | src/quant-core-algo/quant-core-algo/TridiagOperator1D.cs:87-96 | the mirror image on the last row, through `upper[n-1]` and the upper shift |
| TridiagOperator.BoundaryCondition1D.SetInf | src/quant-core-algo/quant-core-algo/TridiagOperator1D.cs:123-142 | folds `(2,-1,0)` for `NoConvexity` and `((2+dx)/(1+dx), -1/(1+dx), 0)` for `Exponential` into row 0 |
| TridiagOperator.BoundaryCondition1D.SetSup | src/quant-core-algo/quant-core-algo/TridiagOperator1D.cs:130-146 | folds `(2,-1,0)` for `NoConvexity` and `((dx-2)/(dx-1), 1/(dx-1), 0)` for `Exponential` into the last row |
| TridiagOperator.InfGhostCondition | src/quant-core-algo/quant-core-algo/TridiagOperator1D.cs:104-142 | the lower ghost value makes the second difference vanish (`NoConvexity`), or equal `dx` times the first difference (`Exponential`) |
| TridiagOperator.SupGhostCondition | src/quant-core-algo/quant-core-algo/TridiagOperator1D.cs:104-146 | the same at the upper end |
| TridiagOperator.InfConditionApplies | src/quant-core-algo/quant-core-algo/TridiagOperator1D.cs:125-142 | after `SetInf`, row 0 is the old row evaluated at the ghost value, and the other rows are unchanged |
| TridiagOperator.SupConditionApplies | src/quant-core-algo/quant-core-algo/TridiagOperator1D.cs:130-146 | after `SetSup`, the last row is the old row evaluated at the ghost value, and the other rows are unchanged |
| PdeStepSolver.NewRegularGrid1D | src/quant-core-algo/quant-core-algo/IPdeStepSolver.cs:174-183 | requires `size > 1` and `sup >= inf`; the step is not negative and `inf + (size-1)*step == sup` |
| PdeStepSolver.UpwindSum | src/quant-core-algo/quant-core-algo/IPdeStepSolver.cs:111-128 | in all three branches `lower + diag + upper == I` |
| PdeStepSolver.UpwindFirstMoment | src/quant-core-algo/quant-core-algo/IPdeStepSolver.cs:111-128 | in all three branches `upper - lower == drift / step^2` |
| PdeStepSolver.UpwindSigns | src/quant-core-algo/quant-core-algo/IPdeStepSolver.cs:111-128 | with a non-negative diffusion, both off-diagonal coefficients are non-negative |
| PdeStepSolver.UpwindCentred | src/quant-core-algo/quant-core-algo/IPdeStepSolver.cs:123-128 | in the centred branch `(upper + lower)*step^2 == diffusion` |
| PdeStepSolver.StencilRowSum | src/quant-core-algo/quant-core-algo/IPdeStepSolver.cs:106-128 | each row adds up to `I[i]`, so a constant is mapped to `I[i]` times itself |
| PdeStepSolver.StencilUpwind | src/quant-core-algo/quant-core-algo/IPdeStepSolver.cs:106-128 | `d2X[i] >= 0` makes `lower[i]` and `upper[i]` non-negative |
| PdeStepSolver.StencilDrift | src/quant-core-algo/quant-core-algo/IPdeStepSolver.cs:106-128 | `(upper[i] - lower[i])*step == dX[i]`: the first derivative is reproduced exactly |
| PdeStepSolver.StencilCentredDiffusion | src/quant-core-algo/quant-core-algo/IPdeStepSolver.cs:123-128 | in the centred branch `(upper[i] + lower[i])*step^2 == 2*d2X[i]` |
| PdeStepSolver.Discretization | src/quant-core-algo/quant-core-algo/IPdeStepSolver.cs:136-151 | the discretised operator has `n` rows and no boundary shift |
| PdeStepSolver.DiscretizationRows | src/quant-core-algo/quant-core-algo/IPdeStepSolver.cs:102-130 | every row of the discretisation sums to `I[i]`, reproduces `dX[i]` and is upwind when `d2X[i] >= 0` |
| PdeStepSolver.FiniteDifference | src/quant-core-algo/quant-core-algo/IPdeStepSolver.cs:102-130 | writes the stencil row of every node `0..n-1` into the three arrays |
| PdeStepSolver.FiniteDiffDiscretizer1D.constructor | src/quant-core-algo/quant-core-algo/IPdeStepSolver.cs:132-135 | keeps the coefficient sampler |
| PdeStepSolver.FiniteDiffDiscretizer1D.Operator | src/quant-core-algo/quant-core-algo/IPdeStepSolver.cs:136-152 | the operator has the grid's size and zero shifts |
| PdeStepSolver.FiniteDiffDiscretizer1D.Discretize | src/quant-core-algo/quant-core-algo/IPdeStepSolver.cs:136-152 | a new operator over three fresh arrays holding the stencil of the sampled coefficients, with zero shifts and no boundary condition |
| PdeStepSolver.FiniteDiffDiscretizer1D.SourceTerm | src/quant-core-algo/quant-core-algo/IPdeStepSolver.cs:153-156 | always fails as not implemented |
| PdeStepSolver.ImplicitSchemeHasIdentityExplicitPart | src/quant-core-algo/quant-core-algo/IPdeStepSolver.cs:18-19 | with `theta = 1` the explicit part is the identity |
| PdeStepSolver.ExplicitSchemeHasIdentityImplicitPart | src/quant-core-algo/quant-core-algo/IPdeStepSolver.cs:18-19 | with `theta = 0` the implicit part is the identity |
| PdeStepSolver.ThetaSchemeEquation | src/quant-core-algo/quant-core-algo/IPdeStepSolver.cs:13-20 | a `w` that the implicit part maps to where the explicit part maps `v` satisfies `(w - v) + theta*dt*L(w) + (1-theta)*dt*L(v) == 0` at every node |
| PdeStepSolver.ThetaStepBalanced | src/quant-core-algo/quant-core-algo/IPdeStepSolver.cs:50-52 | applying the explicit part and then solving with the implicit part gives a step that satisfies the theta-scheme equation |
| PdeStepSolver.ThetaScheme1D.constructor | src/quant-core-algo/quant-core-algo/IPdeStepSolver.cs:40-44 | keeps the discretiser and `theta` |
| PdeStepSolver.ThetaScheme1D.BuildParts | src/quant-core-algo/quant-core-algo/IPdeStepSolver.cs:29-38 | two operators sharing no array: `(theta*dt)*L + I` and `(-(1-theta)*dt)*L + I`, with `dt = end - start` |
| PdeStepSolver.ThetaScheme1D.Backward | src/quant-core-algo/quant-core-algo/IPdeStepSolver.cs:45-53 | the slice is what the explicit part makes of it; the call then fails, with the error of `Apply` or else the not-implemented source term |
| PdeStepSolver.ThetaScheme1D.Forward | src/quant-core-algo/quant-core-algo/IPdeStepSolver.cs:54-64 | as written: both parts go through `Adjoint`, which passes since their shifts are zero and exchanges their `lower` and `upper` bands; the slice is solved with the swapped implicit part and then, if that passed, the swapped explicit part is applied |
| PdeStepSolver.ThetaScheme1D.ForwardTransposed | src/quant-core-algo/quant-core-algo/IPdeStepSolver.cs:54-64 | the same step with both parts transposed, as the adjoint is documented to do |
| PdeStepSolver.ForwardStepEquation | src/quant-core-algo/quant-core-algo/IPdeStepSolver.cs:62-63 | solving `v` with the implicit part of an operator `m` and applying the explicit part gives `u` with `u + theta*dt*m(u) == v` and a result `w == v - dt*m(u)` at every node |
| PdeStepSolver.SwappedParts | src/quant-core-algo/quant-core-algo/IPdeStepSolver.cs:59-60 | swapping the bands of either part is building that part from the band-swapped operator |
| PdeStepSolver.TransposedParts | src/quant-core-algo/quant-core-algo/IPdeStepSolver.cs:59-60 | transposing either part is building that part from the transposed operator |
| PdeStepSolver.SwappedForwardStep | src/quant-core-algo/quant-core-algo/IPdeStepSolver.cs:54-64 | what `Forward` as written computes is the forward step of the band-swapped operator: `w == v - dt*Swapped(L)(u)` |
| PdeStepSolver.TransposedForwardStep | src/quant-core-algo/quant-core-algo/IPdeStepSolver.cs:54-64 | what `ForwardTransposed` computes is the forward step of the transposed operator: `w == v - dt*Transposed(L)(u)` |

## Left out

- IEEE-754 doubles are modelled as exact reals. There is no rounding, and the round trips hold
  exactly rather than to the 1e-10 tolerance of the test.
- A division by zero gives an infinity or NaN in the source rather than an error. The model
  excludes it by preconditions instead:
  - non-zero pivots (`Nonsingular`, `Invertible`) for the solves;
  - a non-zero grid step (`Ready`) for the stencil; the grid itself allows `sup == inf`;
  - `dx != -1` (`InfDefined`) and `dx != 1` (`SupDefined`) for the exponential boundary.
- Aliasing is excluded by preconditions. The three bands of an operator are distinct arrays,
  and neither `MultTridiagonal`, `SolveTridiagonal`, `Apply` nor `Solve` is given one of the
  bands as its vector.
- `ApplyExp` is a floating-point exponential with no exact contract.
- The `unsafe`/`fixed` pointer code is modelled as array indexing. Its one observable effect,
  `&x[0]` failing on an empty array, is kept as `IndexOutOfRange`.
- `ArrayCheck.CheckSize` is not part of this model. `MultTridiagonal` and
  `SolveTridiagonal` model it as the `EqualSize` check of `x` and the three bands.
- The `Mult`, `AxPlusB` and `Copy` extension forms that `TridiagOperator1D` calls are not part
  of this model either. They are modelled as the element-wise loops `MultKernel`,
  `AxPlusBKernel` and `CopyOf`, which do not fail on empty arrays.
- `slice.Add(...)` in `Backward` is never reached, because `SourceTerm` always fails first.
  No forcing term is modelled.
- `Vector.Constant` delegates to `SetValue`, which is not part of this model.
- `PdeCoeffSampler1D.FillCoeff` is abstract. Here it is the input function `fillCoeff`, whose
  samples must cover every grid node (`Samples.Covers`).
- The discretiser's boundary-condition fields are never assigned, and `Discretize` applies no
  boundary condition.
- The test projects are left out.
- `ThetaScheme1D` holds any `IOperatorDiscretizer<double[]>` in the source. Here its
  discretiser is fixed to `FiniteDiffDiscretizer1D`, the one implementation in the core,
  because the model has no interface types.
- PdeStepSolver.ThetaScheme1D.Forward and PdeStepSolver.ThetaScheme1D.ForwardTransposed ask
  for the swapped or the transposed implicit part to be invertible, as `Solve` needs.

## Findings

| source | as written | input that shows it | evidently intended | confidence | as-written member | corrected member |
|---|---|---|---|---|---|---|
| src/quant-core-algo/quant-core-algo/TridiagOperator1D.cs:45-48 | `Adjoint` exchanges the contents of `lower` and `upper`. Row `i` reads `a[i]*x[i-1] + b[i]*x[i] + c[i]*x[i+1]`, so the swap does not give the transpose | `lower = [0, 1]`, `diag = [1, 1]`, `upper = [0, 0]`, i.e. `M = [[1,0],[1,1]]`: the swap gives the identity, while the transpose is `[[1,1],[0,1]]` | the transpose (the interface's "transpose operator"): `lower'[i] = upper[i-1]` and `upper'[i] = lower[i+1]`, with the corners zero | not executed | TridiagOperator.TridiagOperator1D.Adjoint, TridiagOperator.SwappedIsNotTransposed, PdeStepSolver.ThetaScheme1D.Forward, PdeStepSolver.SwappedForwardStep | TridiagOperator.TridiagOperator1D.Transpose, TridiagOperator.TransposedEntries, PdeStepSolver.ThetaScheme1D.ForwardTransposed, PdeStepSolver.TransposedForwardStep |
