/** Array-size validation (`ArrayCheck`). The check reads only the lengths of the arrays. */
module ArrayCheck {
  import opened Errors

  /** Scan `arrays` from the first one on, failing at the first whose length is not `size`. */
  function AllOfLength(size: int, arrays: seq<array<real>>): (r: Outcome)
    ensures r.Pass? <==> forall i :: 0 <= i < |arrays| ==> arrays[i].Length == size
    ensures r.Fail? ==> r.error == SizeMismatch
  {
    if |arrays| == 0 then Pass
    else if arrays[0].Length != size then Fail(SizeMismatch)
    else AllOfLength(size, arrays[1..])
  }

  /** `EqualSize(size, arrays...)`: fails when no array is given, or when some array's
      length differs from `size`; otherwise returns normally. */
  function EqualSize(size: int, arrays: seq<array<real>>): (r: Outcome)
    ensures r.Pass? <==> |arrays| > 0 && forall i :: 0 <= i < |arrays| ==> arrays[i].Length == size
    ensures r.Fail? ==> r.error == SizeMismatch
  {
    if |arrays| == 0 then Fail(SizeMismatch) else AllOfLength(size, arrays)
  }

  /** The two-dimensional overload has no implementation: it always throws. */
  function EqualSize2D(nbRows: int, nbCols: int, arrays: seq<array2<real>>): (r: Outcome)
    ensures r.Fail? && r.error == NotImplemented
  {
    Fail(NotImplemented)
  }
}
