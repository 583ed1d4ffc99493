/** `netcode/detail/invert_matrix.cc`: Gauss elimination in place on two matrices, first down to a unit
    upper triangular matrix, then up to the identity. */
module InvertMatrix {
  import opened Wrappers
  import opened GaloisField
  import opened LinearAlgebra
  import opened Elimination
  import opened SquareMatrix

  /** The first row at or below `i` with a pivot in column `i`, or the dimension if there is none. */
  method FindPivot<E(==,!new)>(f: Field<E>, mat: SquareMatrix<E>, i: nat) returns (j: nat)
    requires mat.Valid() && i < mat.dimension
    ensures i <= j <= mat.dimension
    ensures j < mat.dimension ==> |mat.rows[j]| == mat.dimension && mat.rows[j][i] != f.zero
    ensures forall r | i <= r < j :: |mat.rows[r]| == mat.dimension && mat.rows[r][i] == f.zero
  {
    j := i;
    while j < mat.dimension
      invariant i <= j <= mat.dimension
      invariant forall r | i <= r < j :: |mat.rows[r]| == mat.dimension && mat.rows[r][i] == f.zero
    {
      var e := mat.Get(j, i);
      if e != f.zero {
        return;
      }
      j := j + 1;
    }
  }

  /** Brings a pivot to cell (i, i), unless column `i` has none left: then the matrix is singular. */
  method BringPivot<E(==,!new)>(f: Field<E>, mat: SquareMatrix<E>, inv: SquareMatrix<E>, i: nat, ghost a: Matrix<E>)
    returns (failed: Option<nat>)
    requires f.Laws() && mat.Valid() && inv.Valid() && mat.vec != inv.vec && mat != inv
    requires i < mat.dimension == inv.dimension
    requires Tracks(f, mat.rows, inv.rows, a) && UpperTo(f, mat.rows, i)
    modifies mat`rows, inv`rows, mat.vec, inv.vec
    ensures mat.Valid() && inv.Valid()
    ensures failed.None? ==> Tracks(f, mat.rows, inv.rows, a) && UpperTo(f, mat.rows, i) && mat.rows[i][i] != f.zero
    ensures failed.Some? ==> Singular(f, a) && failed.value == mat.dimension - 1
  {
    var j := FindPivot(f, mat, i);
    if j == mat.dimension {
      ghost var y := NoPivotIsSingular(f, mat.rows, i);
      assert InKernel(f, a, y) && y[i] != f.zero;
      return Some(j - 1);
    }
    if j != i {
      mat.SwapRows(i, j);
      inv.SwapRows(i, j);
      SwapTracks(f, old(mat.rows), old(inv.rows), a, i, j);
    }
    return None;
  }

  /** Scales row `i` so that its pivot becomes one. */
  method Normalize<E(==,!new)>(f: Field<E>, mat: SquareMatrix<E>, inv: SquareMatrix<E>, i: nat, ghost a: Matrix<E>)
    requires f.Laws() && mat.Valid() && inv.Valid() && mat.vec != inv.vec && mat != inv
    requires i < mat.dimension == inv.dimension
    requires Tracks(f, mat.rows, inv.rows, a) && UpperTo(f, mat.rows, i) && mat.rows[i][i] != f.zero
    modifies mat`rows, inv`rows, mat.vec, inv.vec
    ensures mat.Valid() && inv.Valid()
    ensures Tracks(f, mat.rows, inv.rows, a) && UpperTo(f, mat.rows, i) && mat.rows[i][i] == f.one
  {
    var pivot := mat.Get(i, i);
    if pivot != f.one {
      var inverse := f.inv(pivot);
      mat.ScaleRow(f, i, inverse);
      inv.ScaleRow(f, i, inverse);
      ScaleTracks(f, old(mat.rows), old(inv.rows), a, i);
    }
  }

  /** Clears cell (j, i) below a unit pivot. */
  method ClearBelow<E(==,!new)>(f: Field<E>, mat: SquareMatrix<E>, inv: SquareMatrix<E>, i: nat, j: nat,
          ghost a: Matrix<E>)
    requires f.Laws() && mat.Valid() && inv.Valid() && mat.vec != inv.vec && mat != inv
    requires i < j < mat.dimension == inv.dimension
    requires Tracks(f, mat.rows, inv.rows, a) && UpperTo(f, mat.rows, i) && mat.rows[i][i] == f.one
    modifies mat`rows, inv`rows, mat.vec, inv.vec
    ensures mat.Valid() && inv.Valid()
    ensures Tracks(f, mat.rows, inv.rows, a) && UpperTo(f, mat.rows, i) && mat.rows[i][i] == f.one
    ensures mat.rows[j][i] == f.zero
    ensures forall r | 0 <= r < |a| && r != j :: mat.rows[r] == old(mat.rows[r])
  {
    var t := mat.Get(j, i);
    if t != f.zero {
      if t == f.one {
        mat.XorRows(f, i, j);
        inv.XorRows(f, i, j);
      } else {
        mat.CombineRows(f, i, j, t);
        inv.CombineRows(f, i, j, t);
      }
      CombineTracks(f, old(mat.rows), old(inv.rows), a, i, j);
    }
  }

  /** Clears cell (j, i) above. Row `i` of `mat` is a unit row by then, so writing one cell of `mat` is
      the whole row operation. */
  method ClearAbove<E(==,!new)>(f: Field<E>, mat: SquareMatrix<E>, inv: SquareMatrix<E>, i: nat, j: nat,
          ghost a: Matrix<E>)
    requires f.Laws() && mat.Valid() && inv.Valid() && mat.vec != inv.vec && mat != inv
    requires j < i < mat.dimension == inv.dimension
    requires Represents(f, inv.rows, a, mat.rows)
    requires forall c | 0 <= c < |a| :: mat.rows[i][c] == Delta(f, i, c)
    modifies mat`rows, inv`rows, mat.vec, inv.vec
    ensures mat.Valid() && inv.Valid()
    ensures Represents(f, inv.rows, a, mat.rows)
    ensures mat.rows == old(mat.rows)[j := old(mat.rows)[j][i := f.zero]]
  {
    ghost var m, v := mat.rows, inv.rows;
    var t := mat.Get(j, i);
    UnitRowClearsOneCell(f, m, i, j);
    CombineRepresents(f, v, a, m, i, j, t);
    if t != f.zero {
      mat.Set(j, i, f.zero);
      inv.CombineRows(f, i, j, t);
    } else {
      assert m[j][i := f.zero] == m[j];
      assert m[j := m[j]] == m;
    }
  }

  method SetIdentity<E(!new)>(f: Field<E>, inv: SquareMatrix<E>)
    requires inv.Valid()
    modifies inv`rows, inv.vec
    ensures inv.Valid() && IsSquare(inv.rows, inv.dimension)
    ensures forall r, c | 0 <= r < inv.dimension && 0 <= c < inv.dimension :: inv.rows[r][c] == Delta(f, r, c)
  {
    var n := inv.dimension;
    for i := 0 to n
      invariant inv.Valid() && IsSquare(inv.rows, n)
      invariant forall r, c | 0 <= c < i && 0 <= r < n :: inv.rows[r][c] == Delta(f, r, c)
    {
      for j := 0 to n
        invariant inv.Valid() && IsSquare(inv.rows, n)
        invariant forall r, c | 0 <= c < i && 0 <= r < n :: inv.rows[r][c] == Delta(f, r, c)
        invariant forall r | 0 <= r < j :: inv.rows[r][i] == Delta(f, r, i)
      {
        inv.Put(i, j, if i == j then f.one else f.zero);
      }
    }
  }

  method ClearColumn<E(==,!new)>(f: Field<E>, mat: SquareMatrix<E>, inv: SquareMatrix<E>, i: nat, ghost a: Matrix<E>)
    requires f.Laws() && mat.Valid() && inv.Valid() && mat.vec != inv.vec && mat != inv
    requires i < mat.dimension == inv.dimension
    requires Tracks(f, mat.rows, inv.rows, a) && UpperTo(f, mat.rows, i) && mat.rows[i][i] == f.one
    modifies mat`rows, inv`rows, mat.vec, inv.vec
    ensures mat.Valid() && inv.Valid()
    ensures Tracks(f, mat.rows, inv.rows, a) && UpperTo(f, mat.rows, i + 1)
  {
    for j := i + 1 to mat.dimension
      invariant mat.Valid() && inv.Valid()
      invariant Tracks(f, mat.rows, inv.rows, a) && UpperTo(f, mat.rows, i)
      invariant mat.rows[i][i] == f.one
      invariant forall r | i < r < j :: mat.rows[r][i] == f.zero
    {
      ClearBelow(f, mat, inv, i, j, a);
    }
    ColumnCleared(f, mat.rows, i);
  }

  lemma ColumnCleared<E(!new)>(f: Field<E>, m: Matrix<E>, i: nat)
    requires IsSquare(m, |m|) && i < |m| && UpperTo(f, m, i) && m[i][i] == f.one
    requires forall r | i < r < |m| :: m[r][i] == f.zero
    ensures UpperTo(f, m, i + 1)
  {
  }

  /** The first phase. */
  method Triangulate<E(==,!new)>(f: Field<E>, mat: SquareMatrix<E>, inv: SquareMatrix<E>, ghost a: Matrix<E>)
    returns (failed: Option<nat>)
    requires f.Laws() && mat.Valid() && inv.Valid() && mat.vec != inv.vec && mat != inv
    requires mat.dimension == inv.dimension
    requires Tracks(f, mat.rows, inv.rows, a)
    modifies mat`rows, inv`rows, mat.vec, inv.vec
    ensures mat.Valid() && inv.Valid()
    ensures failed.None? ==> Represents(f, inv.rows, a, mat.rows) && UpperTo(f, mat.rows, |a|)
    ensures failed.Some? ==> Singular(f, a) && failed.value == mat.dimension - 1
  {
    var n := mat.dimension;
    for i := 0 to n
      invariant mat.Valid() && inv.Valid()
      invariant Tracks(f, mat.rows, inv.rows, a) && UpperTo(f, mat.rows, i)
    {
      failed := BringPivot(f, mat, inv, i, a);
      if failed.Some? {
        return;
      }
      Normalize(f, mat, inv, i, a);
      ClearColumn(f, mat, inv, i, a);
    }
    return None;
  }

  /** The second phase. */
  method Diagonalize<E(==,!new)>(f: Field<E>, mat: SquareMatrix<E>, inv: SquareMatrix<E>, ghost a: Matrix<E>)
    requires f.Laws() && mat.Valid() && inv.Valid() && mat.vec != inv.vec && mat != inv
    requires 0 < mat.dimension == inv.dimension
    requires Represents(f, inv.rows, a, mat.rows) && UpperTo(f, mat.rows, |a|)
    modifies mat`rows, inv`rows, mat.vec, inv.vec
    ensures mat.Valid() && inv.Valid()
    ensures Represents(f, inv.rows, a, mat.rows) && UnitFrom(f, mat.rows, 0)
  {
    var i: nat := mat.dimension;
    while i > 0
      invariant 0 <= i <= mat.dimension
      invariant mat.Valid() && inv.Valid()
      invariant Represents(f, inv.rows, a, mat.rows)
      invariant UpperTo(f, mat.rows, |a|) && UnitFrom(f, mat.rows, i)
    {
      i := i - 1;
      for j := 0 to i
        invariant mat.Valid() && inv.Valid()
        invariant Represents(f, inv.rows, a, mat.rows)
        invariant UpperTo(f, mat.rows, |a|) && UnitFrom(f, mat.rows, i + 1)
        invariant forall r | 0 <= r < j :: mat.rows[r][i] == f.zero
      {
        ClearAbove(f, mat, inv, i, j, a);
      }
    }
  }

  /** Inverts `mat` into `inv`. It fails exactly on the matrices with a nonzero kernel vector; otherwise
      `inv` is a left inverse of the matrix given, whose rows are the decoder's repairs. The index
      reported on failure is always that of the last row. */
  method Invert<E(==,!new)>(f: Field<E>, mat: SquareMatrix<E>, inv: SquareMatrix<E>) returns (failed: Option<nat>)
    requires f.Laws() && mat.Valid() && inv.Valid() && mat.vec != inv.vec && mat != inv
    requires 0 < mat.dimension == inv.dimension
    modifies mat`rows, inv`rows, mat.vec, inv.vec
    ensures mat.Valid() && inv.Valid()
    ensures failed.Some? <==> Singular(f, old(mat.rows))
    ensures failed.Some? ==> failed.value == mat.dimension - 1
    ensures failed.None? ==> LeftInverse(f, inv.rows, old(mat.rows))
  {
    ghost var a := mat.rows;
    SetIdentity(f, inv);
    IdentityRepresents(f, a, inv.rows);
    failed := Triangulate(f, mat, inv, a);
    if failed.Some? {
      return;
    }
    Diagonalize(f, mat, inv, a);
    if Singular(f, a) {
      SingularHasNoLeftInverse(f, inv.rows, a);
    }
    return None;
  }
}
