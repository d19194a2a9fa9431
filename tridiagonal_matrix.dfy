/** In-place tridiagonal kernels (`TridiagonalMatrix`): `x <- M*x` streamed with one saved
    scalar, and `x <- M^-1 * x` by the Thomas algorithm. Row `i` of `M` holds `a[i]` left of
    the diagonal, `b[i]` on it and `c[i]` right of it; `a[0]` and `c[n-1]` lie outside the
    matrix and are never used by the multiply. */
module TridiagonalMatrix {
  import opened Errors
  import ArrayCheck

  /** Three bands and a vector, all of one length. */
  predicate Banded(a: seq<real>, b: seq<real>, c: seq<real>, x: seq<real>)
  {
    |a| == |x| && |b| == |x| && |c| == |x|
  }

  /** Entry `i` of `M*x`; the terms that would fall outside the vector are dropped. */
  function RowTimes(a: seq<real>, b: seq<real>, c: seq<real>, x: seq<real>, i: int): real
    requires Banded(a, b, c, x) && 0 <= i < |x|
  {
    (if i > 0 then a[i] * x[i - 1] else 0.0)
    + b[i] * x[i]
    + (if i < |x| - 1 then c[i] * x[i + 1] else 0.0)
  }

  /** The product `M*x`. */
  function Mult(a: seq<real>, b: seq<real>, c: seq<real>, x: seq<real>): seq<real>
    requires Banded(a, b, c, x)
  {
    seq(|x|, i requires 0 <= i < |x| => RowTimes(a, b, c, x, i))
  }

  // The Thomas algorithm, as values. A zero pivot makes the algorithm undefined; `Quot`
  // gives such a quotient the value 0 so that the definitions are total, and every
  // statement about them assumes `Nonsingular`.

  function Quot(u: real, v: real): real
  {
    if v == 0.0 then 0.0 else u / v
  }

  /** The pivot of row `i`: `b[0]`, then `b[i] - a[i]*c'[i-1]`. */
  function Pivot(a: seq<real>, b: seq<real>, c: seq<real>, i: nat): real
    requires |a| == |b| == |c| && i < |b|
    decreases i, 0
  {
    if i == 0 then b[0] else b[i] - a[i] * CPrime(a, b, c, i - 1)
  }

  /** The modified upper coefficient `c'[i]` of the forward sweep. */
  function CPrime(a: seq<real>, b: seq<real>, c: seq<real>, i: nat): real
    requires |a| == |b| == |c| && i < |b|
    decreases i, 1
  {
    if i == 0 then Quot(c[0], b[0]) else c[i] * Quot(1.0, Pivot(a, b, c, i))
  }

  /** Every pivot is non-zero: the Thomas algorithm never divides by zero. */
  predicate Nonsingular(a: seq<real>, b: seq<real>, c: seq<real>)
  {
    |a| == |b| == |c| && forall i :: 0 <= i < |b| ==> Pivot(a, b, c, i) != 0.0
  }

  /** Entry `i` of the right-hand side after the forward sweep. */
  function SweptRhs(a: seq<real>, b: seq<real>, c: seq<real>, y: seq<real>, i: nat): real
    requires Banded(a, b, c, y) && i < |y|
  {
    if i == 0 then Quot(y[0], b[0])
    else (y[i] - a[i] * SweptRhs(a, b, c, y, i - 1)) * Quot(1.0, Pivot(a, b, c, i))
  }

  /** Entry `i` of the solution after back-substitution from the last row. */
  function SolvedEntry(a: seq<real>, b: seq<real>, c: seq<real>, y: seq<real>, i: nat): real
    requires Banded(a, b, c, y) && i < |y|
    decreases |y| - i
  {
    if i == |y| - 1 then SweptRhs(a, b, c, y, i)
    else SweptRhs(a, b, c, y, i) - CPrime(a, b, c, i) * SolvedEntry(a, b, c, y, i + 1)
  }

  /** What the Thomas algorithm leaves in the vector. */
  function ThomasSolve(a: seq<real>, b: seq<real>, c: seq<real>, y: seq<real>): seq<real>
    requires Banded(a, b, c, y)
  {
    seq(|y|, i requires 0 <= i < |y| => SolvedEntry(a, b, c, y, i))
  }

  /** On one entry the multiply is `x[0] * b[0]` and the solve `x[0] / b[0]`. */
  lemma SingleEntry(a: seq<real>, b: seq<real>, c: seq<real>, x: seq<real>)
    requires Banded(a, b, c, x) && |x| == 1
    ensures Mult(a, b, c, x) == [x[0] * b[0]]
    ensures b[0] != 0.0 ==> ThomasSolve(a, b, c, x) == [x[0] / b[0]]
  {
    assert Mult(a, b, c, x)[0] == b[0] * x[0];
    assert ThomasSolve(a, b, c, x)[0] == SolvedEntry(a, b, c, x, 0) == SweptRhs(a, b, c, x, 0);
  }

  /** The multiply never reads `a[0]` or `c[n-1]`, which lie outside the matrix. */
  lemma MultIgnoresCorners(a: seq<real>, b: seq<real>, c: seq<real>, x: seq<real>, u: real, w: real)
    requires Banded(a, b, c, x) && |x| > 0
    ensures Mult(a[0 := u], b, c[|x| - 1 := w], x) == Mult(a, b, c, x)
  {
    var a', c' := a[0 := u], c[|x| - 1 := w];
    forall i | 0 <= i < |x| ensures RowTimes(a', b, c', x, i) == RowTimes(a, b, c, x, i) {
      if i > 0 { assert a'[i] == a[i]; }
      if i < |x| - 1 { assert c'[i] == c[i]; }
    }
  }

  /** The modified coefficients and the swept right-hand side, as vectors. */
  function CPrimes(a: seq<real>, b: seq<real>, c: seq<real>): seq<real>
    requires |a| == |b| == |c|
  {
    seq(|b|, i requires 0 <= i < |b| => CPrime(a, b, c, i))
  }

  function SweptRhsVector(a: seq<real>, b: seq<real>, c: seq<real>, y: seq<real>): seq<real>
    requires Banded(a, b, c, y)
  {
    seq(|y|, i requires 0 <= i < |y| => SweptRhs(a, b, c, y, i))
  }

  // The same algorithm as relations between vectors: `cp` and `f` are a forward sweep
  // of `y`, and `z` is back-substituted from them. The proofs about the solver go
  // through these relations, which keep the recursive definitions out of the algebra.

  /** The pivot of row `i` given the modified coefficients `cp`. */
  function PivotWith(a: seq<real>, b: seq<real>, cp: seq<real>, i: int): real
    requires |a| == |b| == |cp| && 0 <= i < |b|
  {
    b[i] - (if i > 0 then a[i] * cp[i - 1] else 0.0)
  }

  predicate SweptRow(a: seq<real>, b: seq<real>, c: seq<real>, y: seq<real>, cp: seq<real>, f: seq<real>, i: int)
    requires Banded(a, b, c, y) && |cp| == |y| && |f| == |y| && 0 <= i < |y|
  {
    var p := PivotWith(a, b, cp, i);
    p != 0.0 && p * cp[i] == c[i] && p * f[i] == y[i] - (if i > 0 then a[i] * f[i - 1] else 0.0)
  }

  /** `cp` and `f` are the forward sweep of `y`: every pivot is non-zero, `p[i]*cp[i] == c[i]`
      and `p[i]*f[i] == y[i] - a[i]*f[i-1]`. */
  predicate Swept(a: seq<real>, b: seq<real>, c: seq<real>, y: seq<real>, cp: seq<real>, f: seq<real>)
  {
    Banded(a, b, c, y) && |cp| == |y| && |f| == |y|
    && forall i :: 0 <= i < |y| ==> SweptRow(a, b, c, y, cp, f, i)
  }

  predicate BackRow(cp: seq<real>, f: seq<real>, z: seq<real>, i: int)
    requires |cp| == |z| && |f| == |z| && 0 <= i < |z|
  {
    z[i] == f[i] - (if i < |z| - 1 then cp[i] * z[i + 1] else 0.0)
  }

  /** `z` is back-substituted from `cp` and `f`: `z[n-1] == f[n-1]`, `z[i] == f[i] - cp[i]*z[i+1]`. */
  predicate BackSubstituted(cp: seq<real>, f: seq<real>, z: seq<real>)
  {
    |cp| == |z| && |f| == |z| && forall i :: 0 <= i < |z| ==> BackRow(cp, f, z, i)
  }

  /** The two identities that define row `i` of the sweep. */
  lemma PivotIdentities(a: seq<real>, b: seq<real>, c: seq<real>, y: seq<real>, i: nat)
    requires Banded(a, b, c, y) && i < |y| && Pivot(a, b, c, i) != 0.0
    ensures Pivot(a, b, c, i) * CPrime(a, b, c, i) == c[i]
    ensures Pivot(a, b, c, i) * SweptRhs(a, b, c, y, i)
            == y[i] - (if i > 0 then a[i] * SweptRhs(a, b, c, y, i - 1) else 0.0)
  {
    var p := Pivot(a, b, c, i);
    assert p * Quot(1.0, p) == 1.0;
    if i == 0 {
      assert p * (c[0] / p) == c[0];
      assert p * (y[0] / p) == y[0];
    } else {
      var rhs := y[i] - a[i] * SweptRhs(a, b, c, y, i - 1);
      assert p * (c[i] * Quot(1.0, p)) == c[i] * (p * Quot(1.0, p));
      assert p * (rhs * Quot(1.0, p)) == rhs * (p * Quot(1.0, p));
    }
  }

  /** The definitions compute a forward sweep, and the Thomas solution is back-substituted from it. */
  lemma DefinitionsSweep(a: seq<real>, b: seq<real>, c: seq<real>, y: seq<real>)
    requires Banded(a, b, c, y) && Nonsingular(a, b, c)
    ensures Swept(a, b, c, y, CPrimes(a, b, c), SweptRhsVector(a, b, c, y))
    ensures BackSubstituted(CPrimes(a, b, c), SweptRhsVector(a, b, c, y), ThomasSolve(a, b, c, y))
  {
    var cp, f, z := CPrimes(a, b, c), SweptRhsVector(a, b, c, y), ThomasSolve(a, b, c, y);
    forall i | 0 <= i < |y| ensures SweptRow(a, b, c, y, cp, f, i) {
      DefinitionsRow(a, b, c, y, i);
    }
    forall i | 0 <= i < |y| ensures BackRow(cp, f, z, i) {
    }
  }

  /** Row `i` of `DefinitionsSweep`. */
  lemma DefinitionsRow(a: seq<real>, b: seq<real>, c: seq<real>, y: seq<real>, i: nat)
    requires Banded(a, b, c, y) && Nonsingular(a, b, c) && i < |y|
    ensures SweptRow(a, b, c, y, CPrimes(a, b, c), SweptRhsVector(a, b, c, y), i)
  {
    var cp, f := CPrimes(a, b, c), SweptRhsVector(a, b, c, y);
    PivotIdentities(a, b, c, y, i);
    assert cp[i] == CPrime(a, b, c, i) && f[i] == SweptRhs(a, b, c, y, i);
    if i > 0 {
      assert cp[i - 1] == CPrime(a, b, c, i - 1) && f[i - 1] == SweptRhs(a, b, c, y, i - 1);
    }
    assert PivotWith(a, b, cp, i) == Pivot(a, b, c, i);
  }

  /** Row `i` of `M` applied to a back-substituted sweep of `y` gives back `y[i]`. */
  lemma SweptRowSolves(a: seq<real>, b: seq<real>, c: seq<real>, y: seq<real>,
                       cp: seq<real>, f: seq<real>, z: seq<real>, i: nat)
    requires Swept(a, b, c, y, cp, f) && BackSubstituted(cp, f, z) && i < |y|
    ensures RowTimes(a, b, c, z, i) == y[i]
  {
    var n := |y|;
    var hasLeft, hasRight := i > 0, i < n - 1;
    assert SweptRow(a, b, c, y, cp, f, i) && BackRow(cp, f, z, i);
    if hasLeft {
      assert BackRow(cp, f, z, i - 1);
    }
    RowAlgebra(hasLeft, hasRight, a[i], b[i], c[i], y[i], PivotWith(a, b, cp, i),
               if hasLeft then cp[i - 1] else 0.0, cp[i], f[i],
               if hasLeft then f[i - 1] else 0.0, if hasLeft then z[i - 1] else 0.0,
               z[i], if hasRight then z[i + 1] else 0.0);
  }

  /** The Thomas algorithm solves the system (round trip): `M * ThomasSolve(y) == y`. */
  lemma MultAfterSolve(a: seq<real>, b: seq<real>, c: seq<real>, y: seq<real>)
    requires Banded(a, b, c, y) && Nonsingular(a, b, c)
    ensures Mult(a, b, c, ThomasSolve(a, b, c, y)) == y
  {
    var cp, f, z := CPrimes(a, b, c), SweptRhsVector(a, b, c, y), ThomasSolve(a, b, c, y);
    DefinitionsSweep(a, b, c, y);
    forall i | 0 <= i < |y| ensures Mult(a, b, c, z)[i] == y[i] {
      SweptRowSolves(a, b, c, y, cp, f, z, i);
    }
  }

  /** A forward sweep of `M*x` holds `x[i] + c'[i]*x[i+1]` in row `i`. */
  lemma {:induction false} SweepOfProduct(a: seq<real>, b: seq<real>, c: seq<real>, x: seq<real>,
                                          cp: seq<real>, f: seq<real>, i: nat)
    requires Banded(a, b, c, x) && Swept(a, b, c, Mult(a, b, c, x), cp, f) && i < |x|
    ensures f[i] == x[i] + (if i < |x| - 1 then cp[i] * x[i + 1] else 0.0)
  {
    var n := |x|;
    var z := Mult(a, b, c, x);
    var hasLeft, hasRight := i > 0, i < n - 1;
    if hasLeft {
      SweepOfProduct(a, b, c, x, cp, f, i - 1);
    }
    assert SweptRow(a, b, c, z, cp, f, i);
    assert z[i] == RowTimes(a, b, c, x, i);
    SweepAlgebra(hasLeft, hasRight, a[i], b[i], c[i], if hasLeft then x[i - 1] else 0.0, x[i],
                 if hasRight then x[i + 1] else 0.0, z[i], PivotWith(a, b, cp, i),
                 if hasLeft then cp[i - 1] else 0.0, cp[i], f[i], if hasLeft then f[i - 1] else 0.0);
  }

  /** Row `k` of a sweep of `M*x` holds `x[k] + c'[k]*x[k+1]`. */
  predicate ProductRow(cp: seq<real>, f: seq<real>, x: seq<real>, k: int)
    requires |cp| == |x| && |f| == |x| && 0 <= k < |x|
  {
    f[k] == x[k] + (if k < |x| - 1 then cp[k] * x[k + 1] else 0.0)
  }

  /** Back-substituting a sweep that holds `x[i] + c'[i]*x[i+1]` recovers `x` from row `i` on. */
  lemma {:induction false} BackOfProduct(cp: seq<real>, f: seq<real>, z: seq<real>, x: seq<real>, i: nat)
    requires BackSubstituted(cp, f, z) && |x| == |z| && i < |x|
    requires forall k :: 0 <= k < |x| ==> ProductRow(cp, f, x, k)
    ensures z[i] == x[i]
    decreases |x| - i
  {
    assert BackRow(cp, f, z, i);
    assert ProductRow(cp, f, x, i);
    if i < |x| - 1 {
      BackOfProduct(cp, f, z, x, i + 1);
      var xi, xr, ci := x[i], x[i + 1], cp[i];
      assert f[i] == xi + ci * xr;
      assert z[i] == (xi + ci * xr) - ci * xr;
    }
  }

  /** Round trip: solving after multiplying gives back the vector. */
  lemma SolveAfterMult(a: seq<real>, b: seq<real>, c: seq<real>, x: seq<real>)
    requires Banded(a, b, c, x) && Nonsingular(a, b, c)
    ensures ThomasSolve(a, b, c, Mult(a, b, c, x)) == x
  {
    var y := Mult(a, b, c, x);
    var cp, f, z := CPrimes(a, b, c), SweptRhsVector(a, b, c, y), ThomasSolve(a, b, c, y);
    DefinitionsSweep(a, b, c, y);
    forall k | 0 <= k < |x| ensures ProductRow(cp, f, x, k) {
      SweepOfProduct(a, b, c, x, cp, f, k);
    }
    forall i | 0 <= i < |x| ensures z[i] == x[i] {
      BackOfProduct(cp, f, z, x, i);
    }
  }

  // Arithmetic helpers: single rows of the algebra above and of the kernels below, with the
  // entries passed as scalars so that the verifier need not relate products of sequence
  // entries. They model nothing in the program.

  /** A product with a non-zero factor can be divided out. */
  lemma DivideOut(p: real, q: real, u: real)
    requires p != 0.0 && p * q == u
    ensures q == u * (1.0 / p) && q == u / p
  {
  }

  /** The algebra of one row of back-substitution: with `z[i-1] = f[i-1] - c'[i-1]*z[i]`
      and `z[i] = f[i] - c'[i]*z[i+1]`, row `i` of `M*z` collapses to `y[i]`. */
  lemma RowAlgebra(hasLeft: bool, hasRight: bool, a: real, b: real, c: real, y: real,
                   p: real, cp: real, cpi: real, f: real, fp: real, zl: real, z: real, zr: real)
    requires p == b - (if hasLeft then a * cp else 0.0)
    requires hasLeft ==> zl == fp - cp * z
    requires p * cpi == c
    requires p * f == y - (if hasLeft then a * fp else 0.0)
    requires z == f - (if hasRight then cpi * zr else 0.0)
    ensures (if hasLeft then a * zl else 0.0) + b * z + (if hasRight then c * zr else 0.0) == y
  {
    if hasLeft {
      assert a * zl == a * fp - (a * cp) * z;
    }
    if hasRight {
      assert p * z == p * f - (p * cpi) * zr;
    }
  }

  /** The algebra of one row of the sweep over `M*x`: eliminating the left neighbour
      leaves `p[i]*x[i] + c[i]*x[i+1]`, and dividing by the pivot leaves `x[i] + c'[i]*x[i+1]`. */
  lemma SweepAlgebra(hasLeft: bool, hasRight: bool, a: real, b: real, c: real,
                     xl: real, x: real, xr: real, zi: real, p: real, cp: real, cpi: real, f: real, fp: real)
    requires zi == (if hasLeft then a * xl else 0.0) + b * x + (if hasRight then c * xr else 0.0)
    requires p == b - (if hasLeft then a * cp else 0.0) && p != 0.0
    requires hasLeft ==> fp == xl + cp * x
    requires p * f == zi - (if hasLeft then a * fp else 0.0)
    requires p * cpi == c
    ensures f == x + (if hasRight then cpi * xr else 0.0)
  {
    var right := if hasRight then cpi * xr else 0.0;
    if hasLeft {
      assert a * fp == a * xl + (a * cp) * x;
    }
    assert p * f == p * x + (if hasRight then c * xr else 0.0);
    if hasRight {
      assert c * xr == p * (cpi * xr);
    }
    assert p * f == p * (x + right);
  }

  /** Row `i` of `M*x` from its three coefficients, with the coefficients and entries that fall
      outside the vector given as zero. */
  lemma RowWith(a: seq<real>, b: seq<real>, c: seq<real>, x: seq<real>, i: nat,
                al: real, bm: real, cr: real, xl: real, xr: real)
    requires Banded(a, b, c, x) && i < |x| && bm == b[i]
    requires al == (if i > 0 then a[i] else 0.0) && xl == (if i > 0 then x[i - 1] else 0.0)
    requires cr == (if i < |x| - 1 then c[i] else 0.0) && xr == (if i < |x| - 1 then x[i + 1] else 0.0)
    ensures RowTimes(a, b, c, x, i) == al * xl + bm * x[i] + cr * xr
  {
  }

  /** The value `v` the kernel writes at `i`, computed from the three coefficients of row `i`
      and the old entries around `i`, is entry `i` of `M*y`. */
  lemma MultRowIs(a: seq<real>, b: seq<real>, c: seq<real>, y: seq<real>, i: nat, v: real,
                  ai: real, bi: real, ci: real, xl: real, xm: real, xr: real)
    requires Banded(a, b, c, y) && i < |y| && ai == a[i] && bi == b[i] && ci == c[i] && xm == y[i]
    requires i > 0 ==> xl == y[i - 1]
    requires i < |y| - 1 ==> xr == y[i + 1]
    requires |y| == 1 ==> v == xm * bi
    requires 0 == i < |y| - 1 ==> v == bi * xm + ci * xr
    requires 0 < i < |y| - 1 ==> v == ai * xl + bi * xm + ci * xr
    requires 0 < i == |y| - 1 ==> v == ai * xl + bi * xm
    ensures Mult(a, b, c, y)[i] == v
  {
    RowTimesAt(a, b, c, y, i);
  }

  // The kernels, in place on arrays.

  /** Row `i` of `M*y` written out, for each position of `i`. */
  lemma RowTimesAt(a: seq<real>, b: seq<real>, c: seq<real>, y: seq<real>, i: nat)
    requires Banded(a, b, c, y) && i < |y|
    ensures |y| == 1 ==> RowTimes(a, b, c, y, i) == b[i] * y[i]
    ensures 0 == i < |y| - 1 ==> RowTimes(a, b, c, y, i) == b[i] * y[i] + c[i] * y[i + 1]
    ensures 0 < i < |y| - 1 ==> RowTimes(a, b, c, y, i) == a[i] * y[i - 1] + b[i] * y[i] + c[i] * y[i + 1]
    ensures 0 < i == |y| - 1 ==> RowTimes(a, b, c, y, i) == a[i] * y[i - 1] + b[i] * y[i]
  {
  }

  /** `x <- M*x`, streamed left to right: `xPrevious` keeps the pre-update value of the
      entry before `i`, so no second buffer is needed. */
  method MultKernel(x: array<real>, a: array<real>, b: array<real>, c: array<real>)
    requires x.Length >= 1 && Banded(a[..], b[..], c[..], x[..])
    requires x != a && x != b && x != c
    modifies x
    ensures x[..] == Mult(a[..], b[..], c[..], old(x[..]))
  {
    ghost var y := x[..];
    ghost var A, B, C := a[..], b[..], c[..];
    ghost var product := Mult(A, B, C, y);
    var size := x.Length;
    if size == 1 {
      var v := x[0] * b[0];
      MultRowIs(A, B, C, y, 0, v, a[0], b[0], c[0], 0.0, x[0], 0.0);
      x[0] := v;
      assert x[..] == [product[0]] == product;
      return;
    }
    var xPrevious := x[0];
    var v := b[0] * x[0] + c[0] * x[1];
    MultRowIs(A, B, C, y, 0, v, a[0], b[0], c[0], 0.0, x[0], x[1]);
    x[0] := v;
    MultSweep(x, a, b, c, xPrevious, y);
  }

  /** Rows `1 .. size-1` of `MultKernel`: on entry row 0 already holds entry 0 of `M*y`,
      the other entries still hold `y`, and `xPrevious` is `y[0]`. */
  method MultSweep(x: array<real>, a: array<real>, b: array<real>, c: array<real>, xPrevious0: real,
                   ghost y: seq<real>)
    requires x.Length >= 2 && |y| == x.Length && Banded(a[..], b[..], c[..], y)
    requires x != a && x != b && x != c
    requires xPrevious0 == y[0] && x[0] == Mult(a[..], b[..], c[..], y)[0]
    requires forall k :: 1 <= k < x.Length ==> x[k] == y[k]
    modifies x
    ensures x[..] == Mult(a[..], b[..], c[..], y)
  {
    ghost var A, B, C := a[..], b[..], c[..];
    ghost var product := Mult(A, B, C, y);
    var size := x.Length;
    var xPrevious := xPrevious0;
    var v;
    var i := 1;
    while i < size - 1
      invariant 1 <= i <= size - 1
      invariant xPrevious == y[i - 1]
      invariant forall k :: 0 <= k < i ==> x[k] == product[k]
      invariant forall k :: i <= k < size ==> x[k] == y[k]
    {
      var temp := x[i];
      v := a[i] * xPrevious + b[i] * x[i] + c[i] * x[i + 1];
      MultRowIs(A, B, C, y, i, v, a[i], b[i], c[i], xPrevious, x[i], x[i + 1]);
      x[i] := v;
      xPrevious := temp;
      i := i + 1;
    }
    v := a[size - 1] * xPrevious + b[size - 1] * x[size - 1];
    MultRowIs(A, B, C, y, size - 1, v, a[size - 1], b[size - 1], c[size - 1], xPrevious, x[size - 1], 0.0);
    x[size - 1] := v;
    assert forall k :: 0 <= k < size ==> x[k] == product[k];
    assert x[..] == product;
  }

  /** Row `i > 0` of the forward sweep, as the kernel computes it: with the pivot
      `p == b[i] - a[i]*cp[i-1]` non-zero, `cp[i] == c[i] * (1/p)` and
      `f[i] == (y[i] - a[i]*f[i-1]) * (1/p)`. */
  predicate KernelRow(a: seq<real>, b: seq<real>, c: seq<real>, y: seq<real>, cp: seq<real>, f: seq<real>, i: int)
    requires Banded(a, b, c, y) && |cp| == |y| && |f| == |y| && 0 < i < |y|
  {
    var p := b[i] - a[i] * cp[i - 1];
    p != 0.0 && cp[i] == c[i] * (1.0 / p) && f[i] == (y[i] - a[i] * f[i - 1]) * (1.0 / p)
  }

  /** `cp` and `f` are what the kernel's forward sweep computes from `y`. */
  predicate KernelSwept(a: seq<real>, b: seq<real>, c: seq<real>, y: seq<real>, cp: seq<real>, f: seq<real>)
  {
    Banded(a, b, c, y) && |cp| == |y| && |f| == |y|
    && (|y| > 0 ==> b[0] != 0.0 && cp[0] == c[0] / b[0] && f[0] == y[0] / b[0])
    && (forall i :: 0 < i < |y| ==> KernelRow(a, b, c, y, cp, f, i))
  }

  /** A sweep in product form is one in the kernel's quotient form. */
  lemma SweptIsKernelSwept(a: seq<real>, b: seq<real>, c: seq<real>, y: seq<real>, cp: seq<real>, f: seq<real>)
    requires Swept(a, b, c, y, cp, f)
    ensures KernelSwept(a, b, c, y, cp, f)
  {
    if |y| > 0 {
      assert SweptRow(a, b, c, y, cp, f, 0);
      DivideOut(b[0], cp[0], c[0]);
      DivideOut(b[0], f[0], y[0]);
    }
    forall i | 0 < i < |y| ensures KernelRow(a, b, c, y, cp, f, i) {
      assert SweptRow(a, b, c, y, cp, f, i);
      var p := PivotWith(a, b, cp, i);
      DivideOut(p, cp[i], c[i]);
      DivideOut(p, f[i], y[i] - a[i] * f[i - 1]);
    }
  }

  /** For non-singular bands the kernel's forward sweep exists, and the Thomas solution
      is back-substituted from it. */
  lemma ThomasSweep(a: seq<real>, b: seq<real>, c: seq<real>, y: seq<real>) returns (cp: seq<real>, f: seq<real>, z: seq<real>)
    requires Banded(a, b, c, y) && Nonsingular(a, b, c)
    ensures KernelSwept(a, b, c, y, cp, f) && BackSubstituted(cp, f, z)
  {
    cp, f, z := CPrimes(a, b, c), SweptRhsVector(a, b, c, y), ThomasSolve(a, b, c, y);
    DefinitionsSweep(a, b, c, y);
    SweptIsKernelSwept(a, b, c, y, cp, f);
  }

  /** Vectors related as the kernel computes them are the Thomas solution: they form a
      sweep, so `z` solves `M*z == y`, and the solution of that system is unique. */
  lemma KernelSolves(a: seq<real>, b: seq<real>, c: seq<real>, y: seq<real>, cp: seq<real>, f: seq<real>, z: seq<real>)
    requires Nonsingular(a, b, c) && KernelSwept(a, b, c, y, cp, f) && BackSubstituted(cp, f, z)
    ensures z == ThomasSolve(a, b, c, y)
  {
    forall i | 0 <= i < |y| ensures SweptRow(a, b, c, y, cp, f, i) {
      var p := PivotWith(a, b, cp, i);
      if i == 0 {
        assert p * (c[0] / p) == c[0] && p * (y[0] / p) == y[0];
      } else {
        assert KernelRow(a, b, c, y, cp, f, i);
        var u := y[i] - a[i] * f[i - 1];
        assert p * (c[i] * (1.0 / p)) == c[i] * (p * (1.0 / p));
        assert p * (u * (1.0 / p)) == u * (p * (1.0 / p));
      }
    }
    forall i | 0 <= i < |y| ensures Mult(a, b, c, z)[i] == y[i] {
      SweptRowSolves(a, b, c, y, cp, f, z, i);
    }
    assert Mult(a, b, c, z) == y;
    SolveAfterMult(a, b, c, z);
  }

  /** `x <- M^-1 * x` by the Thomas algorithm: a forward sweep filling `cprime` and
      rewriting `x`, then back-substitution from the last row. */
  method SolveKernel(x: array<real>, a: array<real>, b: array<real>, c: array<real>)
    requires x.Length >= 1 && Banded(a[..], b[..], c[..], x[..]) && Nonsingular(a[..], b[..], c[..])
    requires x != a && x != b && x != c
    modifies x
    ensures x[..] == ThomasSolve(a[..], b[..], c[..], old(x[..]))
  {
    ghost var y := x[..];
    ghost var A, B, C := a[..], b[..], c[..];
    ghost var CP, F, Z := ThomasSweep(A, B, C, y);
    var size := x.Length;
    if size == 1 {
      x[0] := x[0] / b[0];
      assert BackRow(CP, F, Z, 0);
      assert x[..] == Z;
      KernelSolves(A, B, C, y, CP, F, Z);
      return;
    }
    var cprime := new real[size];
    SweepForward(x, a, b, c, cprime, y, CP, F);
    BackSubstitute(x, cprime, CP, F, Z);
    assert x[..] == Z;
    KernelSolves(A, B, C, y, CP, F, Z);
  }

  /** The forward sweep of `SolveKernel`: `cprime` receives the modified upper band and
      `x` the modified right-hand side, row by row from the first. */
  method SweepForward(x: array<real>, a: array<real>, b: array<real>, c: array<real>, cprime: array<real>,
                      ghost y: seq<real>, ghost cp: seq<real>, ghost f: seq<real>)
    requires x.Length >= 2 && cprime.Length == x.Length && x[..] == y
    requires KernelSwept(a[..], b[..], c[..], y, cp, f)
    requires x != a && x != b && x != c && cprime != x && cprime != a && cprime != b && cprime != c
    modifies x, cprime
    ensures cprime[..] == cp && x[..] == f
  {
    ghost var A, B, C := a[..], b[..], c[..];
    var size := x.Length;
    cprime[0] := c[0] / b[0];
    x[0] := x[0] / b[0];
    var i := 1;
    while i < size
      invariant 1 <= i <= size
      invariant forall k :: 0 <= k < i ==> cprime[k] == cp[k] && x[k] == f[k]
      invariant forall k :: i <= k < size ==> x[k] == y[k]
    {
      assert KernelRow(A, B, C, y, cp, f, i);
      var m := 1.0 / (b[i] - a[i] * cprime[i - 1]);
      cprime[i] := c[i] * m;
      x[i] := (x[i] - a[i] * x[i - 1]) * m;
      i := i + 1;
    }
    assert cprime[..] == cp;
    assert x[..] == f;
  }

  /** The back-substitution of `SolveKernel`, from the last row up. */
  method BackSubstitute(x: array<real>, cprime: array<real>, ghost cp: seq<real>, ghost f: seq<real>,
                        ghost z: seq<real>)
    requires x.Length >= 1 && x != cprime && cprime[..] == cp && x[..] == f && BackSubstituted(cp, f, z)
    modifies x
    ensures x[..] == z
  {
    var size := x.Length;
    var i := size - 1;
    assert BackRow(cp, f, z, size - 1);
    while i > 0
      invariant 0 <= i <= size - 1
      invariant forall k :: i <= k < size ==> x[k] == z[k]
      invariant forall k :: 0 <= k < i ==> x[k] == f[k]
    {
      i := i - 1;
      assert BackRow(cp, f, z, i);
      x[i] := x[i] - cprime[i] * x[i + 1];
    }
    assert x[..] == z;
  }

  /** `x.MultTridiagonal(a, b, c)`: an empty `x` is left as it is; otherwise every band must
      have the length of `x` (else nothing is touched and the call fails), and `x` becomes `M*x`.
      The bands are only read. */
  method MultTridiagonal(x: array<real>, a: array<real>, b: array<real>, c: array<real>) returns (r: Outcome)
    requires x != a && x != b && x != c
    modifies x
    ensures r == if x.Length == 0 || Banded(a[..], b[..], c[..], x[..]) then Pass else Fail(SizeMismatch)
    ensures x[..] == if x.Length > 0 && Banded(a[..], b[..], c[..], x[..])
                     then Mult(a[..], b[..], c[..], old(x[..])) else old(x[..])
  {
    var n := x.Length;
    if n == 0 {
      return Pass;
    }
    r := ArrayCheck.EqualSize(n, [x, a, b, c]);
    if r.Fail? {
      return;
    }
    assert [x, a, b, c][1] == a && [x, a, b, c][2] == b && [x, a, b, c][3] == c;
    MultKernel(x, a, b, c);
  }

  /** `x.SolveTridiagonal(a, b, c)`: the same checks as the multiply, then `x` becomes `M^-1 * x`.
      The caller must supply bands whose pivots are all non-zero. */
  method SolveTridiagonal(x: array<real>, a: array<real>, b: array<real>, c: array<real>) returns (r: Outcome)
    requires x != a && x != b && x != c
    requires x.Length > 0 && Banded(a[..], b[..], c[..], x[..]) ==> Nonsingular(a[..], b[..], c[..])
    modifies x
    ensures r == if x.Length == 0 || Banded(a[..], b[..], c[..], x[..]) then Pass else Fail(SizeMismatch)
    ensures x[..] == if x.Length > 0 && Banded(a[..], b[..], c[..], x[..])
                     then ThomasSolve(a[..], b[..], c[..], old(x[..])) else old(x[..])
  {
    var n := x.Length;
    if n == 0 {
      return Pass;
    }
    r := ArrayCheck.EqualSize(n, [x, a, b, c]);
    if r.Fail? {
      return;
    }
    assert [x, a, b, c][1] == a && [x, a, b, c][2] == b && [x, a, b, c][3] == c;
    SolveKernel(x, a, b, c);
  }
}
