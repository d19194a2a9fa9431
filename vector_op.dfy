/** Element-wise in-place vector arithmetic (`Vector.Add`, `Sub`, `Mult`, `AxPlusBy`).
    The public one-dimensional entries pin `&x[0]` (and `&y[0]`), so an empty array
    raises an index error instead of being a no-op; the two-dimensional entries run the
    same kernels over the whole row-major storage. */
module VectorOp {
  import opened Errors

  /** `x` with `y` added to its first `size` entries. */
  function Plus(x: seq<real>, y: seq<real>, size: nat): seq<real>
    requires size <= |x| && size <= |y|
  {
    seq(|x|, i requires 0 <= i < |x| => if i < size then x[i] + y[i] else x[i])
  }

  /** `x` with `y` subtracted from its first `size` entries. */
  function Minus(x: seq<real>, y: seq<real>, size: nat): seq<real>
    requires size <= |x| && size <= |y|
  {
    seq(|x|, i requires 0 <= i < |x| => if i < size then x[i] - y[i] else x[i])
  }

  /** Every entry of `x` multiplied by `a`. */
  function Scaled(x: seq<real>, a: real): seq<real>
  {
    seq(|x|, i requires 0 <= i < |x| => a * x[i])
  }

  /** The linear combination `a*x + b*y` of two vectors of one length. */
  function Combined(x: seq<real>, a: real, y: seq<real>, b: real): seq<real>
    requires |x| == |y|
  {
    seq(|x|, i requires 0 <= i < |x| => a * x[i] + b * y[i])
  }

  /** Every entry of `x` mapped to `a*x[i] + b`. */
  function Offset(x: seq<real>, a: real, b: real): seq<real>
  {
    seq(|x|, i requires 0 <= i < |x| => a * x[i] + b)
  }

  /** Subtracting `y` undoes adding it. */
  lemma MinusUndoesPlus(x: seq<real>, y: seq<real>, size: nat)
    requires size <= |x| && size <= |y|
    ensures Minus(Plus(x, y, size), y, size) == x
  {
    var z := Minus(Plus(x, y, size), y, size);
    forall i | 0 <= i < |x| ensures z[i] == x[i] {
      if i < size {
        assert z[i] == (x[i] + y[i]) - y[i];
      }
    }
  }

  /** Adding `y` undoes subtracting it. */
  lemma PlusUndoesMinus(x: seq<real>, y: seq<real>, size: nat)
    requires size <= |x| && size <= |y|
    ensures Plus(Minus(x, y, size), y, size) == x
  {
    var z := Plus(Minus(x, y, size), y, size);
    forall i | 0 <= i < |x| ensures z[i] == x[i] {
      if i < size {
        assert z[i] == (x[i] - y[i]) + y[i];
      }
    }
  }

  /** Scaling by `a` and then by `b` is scaling by `a * b`. */
  lemma ScaledTwice(x: seq<real>, a: real, b: real)
    ensures Scaled(Scaled(x, a), b) == Scaled(x, a * b)
  {
    var z := Scaled(Scaled(x, a), b);
    forall i | 0 <= i < |x| ensures z[i] == Scaled(x, a * b)[i] {
      calc {
        z[i];
        b * (a * x[i]);
        (a * b) * x[i];
      }
    }
  }

  /** `a*x + b*y` specialises to the sum, the difference and the scaling. */
  lemma CombinedSpecialises(x: seq<real>, a: real, y: seq<real>)
    requires |x| == |y|
    ensures Combined(x, 1.0, y, 1.0) == Plus(x, y, |x|)
    ensures Combined(x, 1.0, y, -1.0) == Minus(x, y, |x|)
    ensures Combined(x, a, y, 0.0) == Scaled(x, a)
  {
    assert Combined(x, 1.0, y, -1.0) == Minus(x, y, |x|) by {
      forall i | 0 <= i < |x| ensures Combined(x, 1.0, y, -1.0)[i] == Minus(x, y, |x|)[i] {
        assert 1.0 * x[i] + -1.0 * y[i] == x[i] - y[i];
      }
    }
  }

  // Kernels: the loops the public entries run over a counted prefix of the storage.

  /** `x[i] += y[i]` for `i < size`. */
  method AddKernel(x: array<real>, y: array<real>, size: nat)
    requires size <= x.Length && size <= y.Length
    modifies x
    ensures x[..] == Plus(old(x[..]), old(y[..]), size)
  {
    ghost var x0, y0 := x[..], y[..];
    var i := 0;
    while i < size
      invariant 0 <= i <= size
      invariant forall k :: 0 <= k < i ==> x[k] == x0[k] + y0[k]
      invariant forall k :: i <= k < x.Length ==> x[k] == x0[k]
      invariant forall k :: i <= k < y.Length ==> y[k] == y0[k]
    {
      x[i] := x[i] + y[i];
      i := i + 1;
    }
    assert x[..] == Plus(x0, y0, size);
  }

  /** `x[i] -= y[i]` for `i < size`. */
  method SubKernel(x: array<real>, y: array<real>, size: nat)
    requires size <= x.Length && size <= y.Length
    modifies x
    ensures x[..] == Minus(old(x[..]), old(y[..]), size)
  {
    ghost var x0, y0 := x[..], y[..];
    var i := 0;
    while i < size
      invariant 0 <= i <= size
      invariant forall k :: 0 <= k < i ==> x[k] == x0[k] - y0[k]
      invariant forall k :: i <= k < x.Length ==> x[k] == x0[k]
      invariant forall k :: i <= k < y.Length ==> y[k] == y0[k]
    {
      x[i] := x[i] - y[i];
      i := i + 1;
    }
    assert x[..] == Minus(x0, y0, size);
  }

  /** `x[i] *= a` for every `i`. */
  method MultKernel(x: array<real>, a: real)
    modifies x
    ensures x[..] == Scaled(old(x[..]), a)
  {
    ghost var x0 := x[..];
    var i := 0;
    while i < x.Length
      invariant 0 <= i <= x.Length
      invariant forall k :: 0 <= k < i ==> x[k] == a * x0[k]
      invariant forall k :: i <= k < x.Length ==> x[k] == x0[k]
    {
      x[i] := x[i] * a;
      i := i + 1;
    }
    assert forall k :: 0 <= k < x.Length ==> x[..][k] == Scaled(x0, a)[k];
  }

  /** `x[i] = a*x[i] + b*y[i]` for every `i`. */
  method AxPlusByKernel(x: array<real>, a: real, y: array<real>, b: real)
    requires x.Length == y.Length
    modifies x
    ensures x[..] == Combined(old(x[..]), a, old(y[..]), b)
  {
    ghost var x0, y0 := x[..], y[..];
    var i := 0;
    while i < x.Length
      invariant 0 <= i <= x.Length
      invariant forall k :: 0 <= k < i ==> x[k] == a * x0[k] + b * y0[k]
      invariant forall k :: i <= k < x.Length ==> x[k] == x0[k] && y[k] == y0[k]
    {
      x[i] := a * x[i] + b * y[i];
      i := i + 1;
    }
    assert forall k :: 0 <= k < x.Length ==> x[..][k] == Combined(x0, a, y0, b)[k];
  }

  /** `x.AxPlusB(a, b)`, the extension form the operator uses: `x[i] = a*x[i] + b`. */
  method AxPlusBKernel(x: array<real>, a: real, b: real)
    modifies x
    ensures x[..] == Offset(old(x[..]), a, b)
  {
    ghost var x0 := x[..];
    var i := 0;
    while i < x.Length
      invariant 0 <= i <= x.Length
      invariant forall k :: 0 <= k < i ==> x[k] == a * x0[k] + b
      invariant forall k :: i <= k < x.Length ==> x[k] == x0[k]
    {
      x[i] := a * x[i] + b;
      i := i + 1;
    }
    assert forall k :: 0 <= k < x.Length ==> x[..][k] == Offset(x0, a, b)[k];
  }

  /** `x.Copy()`: a fresh array with the entries of `x`. */
  method CopyOf(x: array<real>) returns (y: array<real>)
    ensures fresh(y) && y[..] == x[..]
  {
    y := new real[x.Length];
    var i := 0;
    while i < x.Length
      invariant 0 <= i <= x.Length
      invariant forall k :: 0 <= k < i ==> y[k] == x[k]
    {
      y[i] := x[i];
      i := i + 1;
    }
  }

  /** The shared shape of the two-dimensional entries: every entry `x[p, q]` becomes
      `f(x[p, q], y[p, q])`, row by row. */
  method Pointwise2D(x: array2<real>, y: array2<real>, f: (real, real) -> real)
    requires x.Length0 == y.Length0 && x.Length1 == y.Length1
    modifies x
    ensures forall p, q :: 0 <= p < x.Length0 && 0 <= q < x.Length1 ==>
              x[p, q] == f(old(x[p, q]), old(y[p, q]))
    ensures x != y ==> forall p, q :: 0 <= p < y.Length0 && 0 <= q < y.Length1 ==> y[p, q] == old(y[p, q])
  {
    var i := 0;
    while i < x.Length0
      invariant 0 <= i <= x.Length0
      invariant forall p, q :: 0 <= p < i && 0 <= q < x.Length1 ==> x[p, q] == f(old(x[p, q]), old(y[p, q]))
      invariant forall p, q :: i <= p < x.Length0 && 0 <= q < x.Length1 ==> x[p, q] == old(x[p, q]) && y[p, q] == old(y[p, q])
      invariant x != y ==> forall p, q :: 0 <= p < y.Length0 && 0 <= q < y.Length1 ==> y[p, q] == old(y[p, q])
    {
      var j := 0;
      while j < x.Length1
        invariant 0 <= j <= x.Length1
        invariant forall p, q :: 0 <= p < i && 0 <= q < x.Length1 ==> x[p, q] == f(old(x[p, q]), old(y[p, q]))
        invariant forall q :: 0 <= q < j ==> x[i, q] == f(old(x[i, q]), old(y[i, q]))
        invariant forall q :: j <= q < x.Length1 ==> x[i, q] == old(x[i, q]) && y[i, q] == old(y[i, q])
        invariant forall p, q :: i < p < x.Length0 && 0 <= q < x.Length1 ==> x[p, q] == old(x[p, q]) && y[p, q] == old(y[p, q])
        invariant x != y ==> forall p, q :: 0 <= p < y.Length0 && 0 <= q < y.Length1 ==> y[p, q] == old(y[p, q])
      {
        x[i, j] := f(x[i, j], y[i, j]);
        j := j + 1;
      }
      i := i + 1;
    }
  }

  /** `Add(ref x, y)`: adds `y` to the first `min(|x|, |y|)` entries of `x`; no size error,
      but an index error when either array is empty. */
  method Add(x: array<real>, y: array<real>) returns (r: Outcome)
    modifies x
    ensures r == if x.Length > 0 && y.Length > 0 then Pass else Fail(IndexOutOfRange)
    ensures x[..] == if r.Pass? then Plus(old(x[..]), old(y[..]), Min(x.Length, y.Length)) else old(x[..])
  {
    if x.Length == 0 || y.Length == 0 {
      return Fail(IndexOutOfRange);
    }
    AddKernel(x, y, Min(x.Length, y.Length));
    r := Pass;
  }

  /** `Sub(ref x, y)`: subtracts `y` from the first `min(|x|, |y|)` entries of `x`. */
  method Sub(x: array<real>, y: array<real>) returns (r: Outcome)
    modifies x
    ensures r == if x.Length > 0 && y.Length > 0 then Pass else Fail(IndexOutOfRange)
    ensures x[..] == if r.Pass? then Minus(old(x[..]), old(y[..]), Min(x.Length, y.Length)) else old(x[..])
  {
    if x.Length == 0 || y.Length == 0 {
      return Fail(IndexOutOfRange);
    }
    SubKernel(x, y, Min(x.Length, y.Length));
    r := Pass;
  }

  /** `Mult(ref x, a)`: scales every entry of `x` by `a`. */
  method Mult(x: array<real>, a: real) returns (r: Outcome)
    modifies x
    ensures r == if x.Length > 0 then Pass else Fail(IndexOutOfRange)
    ensures r.Pass? ==> x[..] == Scaled(old(x[..]), a)
  {
    if x.Length == 0 {
      return Fail(IndexOutOfRange);
    }
    MultKernel(x, a);
    r := Pass;
  }

  /** `AxPlusBy(ref x, a, y, b)`: `x = a*x + b*y`; fails when the lengths differ. */
  method AxPlusBy(x: array<real>, a: real, y: array<real>, b: real) returns (r: Outcome)
    modifies x
    ensures r == if x.Length != y.Length then Fail(SizeMismatch)
                 else if x.Length == 0 then Fail(IndexOutOfRange)
                 else Pass
    ensures x[..] == if r.Pass? then Combined(old(x[..]), a, old(y[..]), b) else old(x[..])
  {
    if x.Length != y.Length {
      return Fail(SizeMismatch);
    }
    if x.Length == 0 {
      return Fail(IndexOutOfRange);
    }
    AxPlusByKernel(x, a, y, b);
    r := Pass;
  }

  /** Whether two matrices have the same number of rows and of columns. */
  predicate SameShape(x: array2<real>, y: array2<real>)
  {
    x.Length0 == y.Length0 && x.Length1 == y.Length1
  }

  /** Whether `&x[0, 0]` exists. */
  predicate NonEmpty2D(x: array2<real>)
  {
    x.Length0 > 0 && x.Length1 > 0
  }

  /** `Add(ref x, y)` on matrices: fails with "Incompatible size" unless the shapes agree. */
  method Add2D(x: array2<real>, y: array2<real>) returns (r: Outcome)
    modifies x
    ensures r == if !SameShape(x, y) then Fail(SizeMismatch)
                 else if !NonEmpty2D(x) then Fail(IndexOutOfRange)
                 else Pass
    ensures r.Pass? ==> forall p, q :: 0 <= p < x.Length0 && 0 <= q < x.Length1 ==>
                          x[p, q] == old(x[p, q]) + old(y[p, q])
    ensures r.Fail? ==> forall p, q :: 0 <= p < x.Length0 && 0 <= q < x.Length1 ==> x[p, q] == old(x[p, q])
  {
    if !SameShape(x, y) {
      return Fail(SizeMismatch);
    }
    if !NonEmpty2D(x) {
      return Fail(IndexOutOfRange);
    }
    Pointwise2D(x, y, (u, v) => u + v);
    r := Pass;
  }

  /** `Sub(ref x, y)` on matrices. */
  method Sub2D(x: array2<real>, y: array2<real>) returns (r: Outcome)
    modifies x
    ensures r == if !SameShape(x, y) then Fail(SizeMismatch)
                 else if !NonEmpty2D(x) then Fail(IndexOutOfRange)
                 else Pass
    ensures r.Pass? ==> forall p, q :: 0 <= p < x.Length0 && 0 <= q < x.Length1 ==>
                          x[p, q] == old(x[p, q]) - old(y[p, q])
    ensures r.Fail? ==> forall p, q :: 0 <= p < x.Length0 && 0 <= q < x.Length1 ==> x[p, q] == old(x[p, q])
  {
    if !SameShape(x, y) {
      return Fail(SizeMismatch);
    }
    if !NonEmpty2D(x) {
      return Fail(IndexOutOfRange);
    }
    Pointwise2D(x, y, (u, v) => u - v);
    r := Pass;
  }

  /** `Mult(ref x, a)` on matrices. */
  method Mult2D(x: array2<real>, a: real) returns (r: Outcome)
    modifies x
    ensures r == if NonEmpty2D(x) then Pass else Fail(IndexOutOfRange)
    ensures r.Pass? ==> forall p, q :: 0 <= p < x.Length0 && 0 <= q < x.Length1 ==> x[p, q] == a * old(x[p, q])
  {
    if !NonEmpty2D(x) {
      return Fail(IndexOutOfRange);
    }
    Pointwise2D(x, x, (u, v) => a * u);
    r := Pass;
  }

  /** `AxPlusBy(ref x, a, y, b)` on matrices. */
  method AxPlusBy2D(x: array2<real>, a: real, y: array2<real>, b: real) returns (r: Outcome)
    modifies x
    ensures r == if !SameShape(x, y) then Fail(SizeMismatch)
                 else if !NonEmpty2D(x) then Fail(IndexOutOfRange)
                 else Pass
    ensures r.Pass? ==> forall p, q :: 0 <= p < x.Length0 && 0 <= q < x.Length1 ==>
                          x[p, q] == a * old(x[p, q]) + b * old(y[p, q])
    ensures r.Fail? ==> forall p, q :: 0 <= p < x.Length0 && 0 <= q < x.Length1 ==> x[p, q] == old(x[p, q])
  {
    if !SameShape(x, y) {
      return Fail(SizeMismatch);
    }
    if !NonEmpty2D(x) {
      return Fail(IndexOutOfRange);
    }
    Pointwise2D(x, y, (u, v) => a * u + b * v);
    r := Pass;
  }

  function Min(a: int, b: int): int
  {
    if a < b then a else b
  }
}
