/** What each row operation of Gauss elimination keeps: the bookkeeping matrix `v` still turns the
    original `a` into the current `m`, and `m` still has the kernel of `a`. */
module Elimination {
  import opened GaloisField
  import opened LinearAlgebra

  /** V A == M. */
  ghost predicate Represents<E(!new)>(f: Field<E>, v: Matrix<E>, a: Matrix<E>, m: Matrix<E>) {
    && IsSquare(a, |a|) && IsSquare(v, |a|) && IsSquare(m, |a|)
    && forall r, c | 0 <= r < |a| && 0 <= c < |a| :: Dot(f, v[r], Col(a, c)) == m[r][c]
  }

  ghost predicate SameKernel<E(!new)>(f: Field<E>, m: Matrix<E>, a: Matrix<E>) {
    forall x: seq<E> | |x| == |a| :: InKernel(f, m, x) <==> InKernel(f, a, x)
  }

  function Swapped<E>(m: Matrix<E>, i: nat, j: nat): Matrix<E>
    requires i < |m| && j < |m|
  {
    m[i := m[j]][j := m[i]]
  }

  function Scaled<E(!new)>(f: Field<E>, m: Matrix<E>, i: nat, c: E): Matrix<E>
    requires i < |m|
  {
    m[i := f.Scale(c, m[i])]
  }

  /** Adds `c` times row `i` to row `j`. */
  function Combined<E(!new)>(f: Field<E>, m: Matrix<E>, i: nat, j: nat, c: E): Matrix<E>
    requires i < |m| && j < |m|
  {
    m[j := f.AddScaled(m[j], c, m[i])]
  }

  // ----- V A == M is kept when the same operation is done on V and M

  lemma IdentityRepresents<E(!new)>(f: Field<E>, a: Matrix<E>, v: Matrix<E>)
    requires f.Laws() && IsSquare(a, |a|) && IsSquare(v, |a|)
    requires forall r, c | 0 <= r < |a| && 0 <= c < |a| :: v[r][c] == Delta(f, r, c)
    ensures Represents(f, v, a, a)
  {
    forall r, c | 0 <= r < |a| && 0 <= c < |a|
      ensures Dot(f, v[r], Col(a, c)) == a[r][c]
    {
      DotUnit(f, v[r], Col(a, c), r);
    }
  }

  lemma SwapRepresents<E(!new)>(f: Field<E>, v: Matrix<E>, a: Matrix<E>, m: Matrix<E>, i: nat, j: nat)
    requires Represents(f, v, a, m) && i < |a| && j < |a|
    ensures Represents(f, Swapped(v, i, j), a, Swapped(m, i, j))
  {
  }

  lemma ScaleRepresents<E(!new)>(f: Field<E>, v: Matrix<E>, a: Matrix<E>, m: Matrix<E>, i: nat, t: E)
    requires f.Laws() && Represents(f, v, a, m) && i < |a|
    ensures Represents(f, Scaled(f, v, i, t), a, Scaled(f, m, i, t))
  {
    forall c | 0 <= c < |a|
      ensures Dot(f, f.Scale(t, v[i]), Col(a, c)) == f.mul(t, m[i][c])
    {
      DotScale(f, t, v[i], Col(a, c));
    }
  }

  lemma CombineRepresents<E(!new)>(f: Field<E>, v: Matrix<E>, a: Matrix<E>, m: Matrix<E>, i: nat, j: nat, t: E)
    requires f.Laws() && Represents(f, v, a, m) && i < |a| && j < |a|
    ensures Represents(f, Combined(f, v, i, j, t), a, Combined(f, m, i, j, t))
  {
    forall c | 0 <= c < |a|
      ensures Dot(f, f.AddScaled(v[j], t, v[i]), Col(a, c)) == f.add(m[j][c], f.mul(t, m[i][c]))
    {
      DotAddScaled(f, v[j], t, v[i], Col(a, c));
    }
  }

  // ----- each operation keeps the kernel

  lemma SwapKernel<E(!new)>(f: Field<E>, m: Matrix<E>, i: nat, j: nat, x: seq<E>)
    requires i < |m| && j < |m|
    ensures InKernel(f, Swapped(m, i, j), x) <==> InKernel(f, m, x)
  {
    var s := Swapped(m, i, j);
    assert m == Swapped(s, i, j);
  }

  lemma ScaleKernel<E(!new)>(f: Field<E>, m: Matrix<E>, i: nat, t: E, x: seq<E>)
    requires f.Laws() && IsSquare(m, |m|) && i < |m| && |x| == |m| && t != f.zero
    ensures InKernel(f, Scaled(f, m, i, t), x) <==> InKernel(f, m, x)
  {
    var s := Scaled(f, m, i, t);
    DotScale(f, t, m[i], x);
    f.MulInv(t, Dot(f, m[i], x));
    f.MulZero(t);
    f.MulZero(f.inv(t));
    assert forall r | 0 <= r < |m| && r != i :: s[r] == m[r];
  }

  lemma CombineKernel<E(!new)>(f: Field<E>, m: Matrix<E>, i: nat, j: nat, t: E, x: seq<E>)
    requires f.Laws() && IsSquare(m, |m|) && i < |m| && j < |m| && i != j && |x| == |m|
    ensures InKernel(f, Combined(f, m, i, j, t), x) <==> InKernel(f, m, x)
  {
    var s := Combined(f, m, i, j, t);
    assert forall r | 0 <= r < |m| && r != j :: s[r] == m[r];
    if Dot(f, m[i], x) == f.zero {
      DotAddScaled(f, m[j], t, m[i], x);
      f.MulZero(t);
      f.AddZero(Dot(f, m[j], x));
    } else {
      assert s[i] == m[i];
    }
  }

  // ----- one step of the first phase

  /** What holds of the two matrices throughout the first phase: `v` times the original `a` is `m`, and
      `m` still has the kernel of `a`. */
  ghost predicate Tracks<E(!new)>(f: Field<E>, m: Matrix<E>, v: Matrix<E>, a: Matrix<E>) {
    Represents(f, v, a, m) && SameKernel(f, m, a)
  }

  lemma SwapTracks<E(!new)>(f: Field<E>, m: Matrix<E>, v: Matrix<E>, a: Matrix<E>, i: nat, j: nat)
    requires Tracks(f, m, v, a) && i <= j < |a| && UpperTo(f, m, i) && m[j][i] != f.zero
    ensures Tracks(f, Swapped(m, i, j), Swapped(v, i, j), a)
    ensures UpperTo(f, Swapped(m, i, j), i) && Swapped(m, i, j)[i][i] != f.zero
  {
    forall x: seq<E> | |x| == |a| {
      SwapKernel(f, m, i, j, x);
    }
    SwapRepresents(f, v, a, m, i, j);
  }

  /** Scaling row `i` by the inverse of its pivot. */
  lemma ScaleTracks<E(!new)>(f: Field<E>, m: Matrix<E>, v: Matrix<E>, a: Matrix<E>, i: nat)
    requires f.Laws() && Tracks(f, m, v, a) && i < |a| && UpperTo(f, m, i) && m[i][i] != f.zero
    ensures var t := f.inv(m[i][i]);
            var s := Scaled(f, m, i, t);
            Tracks(f, s, Scaled(f, v, i, t), a) && UpperTo(f, s, i) && s[i][i] == f.one
  {
    var t := f.inv(m[i][i]);
    f.MulInv(m[i][i], f.one);
    f.Law(m[i][i], m[i][i], m[i][i]);
    f.MulZero(t);
    forall x: seq<E> | |x| == |a| {
      ScaleKernel(f, m, i, t, x);
    }
    ScaleRepresents(f, v, a, m, i, t);
  }

  /** Subtracting from row `j` its entry in column `i` times the row of the unit pivot. */
  lemma CombineTracks<E(!new)>(f: Field<E>, m: Matrix<E>, v: Matrix<E>, a: Matrix<E>, i: nat, j: nat)
    requires f.Laws() && Tracks(f, m, v, a) && i < j < |a| && UpperTo(f, m, i) && m[i][i] == f.one
    ensures var s := Combined(f, m, i, j, m[j][i]);
            Tracks(f, s, Combined(f, v, i, j, m[j][i]), a) && UpperTo(f, s, i) && s[j][i] == f.zero
  {
    var t := m[j][i];
    f.Law(t, f.one, t);
    f.Law(f.one, t, t);
    f.Law(t, t, t);
    f.MulZero(t);
    f.AddZero(f.zero);
    forall x: seq<E> | |x| == |a| {
      CombineKernel(f, m, i, j, t, x);
    }
    CombineRepresents(f, v, a, m, i, j, t);
  }

  /** In the second phase row `i` is a unit row, so subtracting a multiple of it from row `j` changes one
      cell only. */
  lemma UnitRowClearsOneCell<E(!new)>(f: Field<E>, m: Matrix<E>, i: nat, j: nat)
    requires f.Laws() && IsSquare(m, |m|) && j < i < |m|
    requires forall c | 0 <= c < |m| :: m[i][c] == Delta(f, i, c)
    ensures Combined(f, m, i, j, m[j][i]) == m[j := m[j][i := f.zero]]
  {
    var t := m[j][i];
    forall c | 0 <= c < |m|
      ensures f.AddScaled(m[j], t, m[i])[c] == m[j][i := f.zero][c]
    {
      f.MulZero(t);
      f.AddZero(m[j][c]);
      f.Law(t, f.one, t);
      f.Law(f.one, t, t);
      f.Law(t, t, t);
    }
    assert f.AddScaled(m[j], t, m[i]) == m[j][i := f.zero];
  }

  // ----- triangular shape

  /** The first `k` columns are those of a unit upper triangular matrix. */
  ghost predicate UpperTo<E(!new)>(f: Field<E>, m: Matrix<E>, k: nat)
    requires IsSquare(m, |m|) && k <= |m|
  {
    && (forall i | 0 <= i < k :: m[i][i] == f.one)
    && (forall r, c | 0 <= c < k && c < r < |m| :: m[r][c] == f.zero)
  }

  /** Columns `k` and above are those of the identity. */
  ghost predicate UnitFrom<E(!new)>(f: Field<E>, m: Matrix<E>, k: nat)
    requires IsSquare(m, |m|)
  {
    forall r, c | 0 <= r < |m| && k <= c < |m| :: m[r][c] == Delta(f, r, c)
  }

  /** Back-substitution. In a matrix whose first `k` columns are unit triangular and whose column `k`
      has no pivot left, fix the entries from `r` on and solve for those above. */
  lemma BackSubstitute<E(!new)>(f: Field<E>, m: Matrix<E>, k: nat, r: nat, x: seq<E>) returns (y: seq<E>)
    requires f.Laws() && IsSquare(m, |m|) && r <= k < |m| && UpperTo(f, m, k)
    requires |x| == |m| && x[k] == f.one
    requires forall i | 0 <= i < r :: x[i] == f.zero
    requires forall i | r <= i < |m| :: Dot(f, m[i], x) == f.zero
    ensures |y| == |m| && y[k] == f.one && InKernel(f, m, y)
  {
    if r == 0 {
      y := x;
    } else {
      var t := Dot(f, m[r - 1], x);
      var z := x[r - 1 := t];
      DotUpdate(f, m[r - 1], x, r - 1, t);
      f.Law(t, t, t);
      forall i | r <= i < |m|
        ensures Dot(f, m[i], z) == f.zero
      {
        DotUpdate(f, m[i], x, r - 1, t);
        f.MulZero(t);
        f.AddZero(f.zero);
      }
      y := BackSubstitute(f, m, k, r - 1, z);
    }
  }

  /** When no pivot is left in column `k` at or below row `k`, the matrix is singular. */
  lemma NoPivotIsSingular<E(!new)>(f: Field<E>, m: Matrix<E>, k: nat) returns (y: seq<E>)
    requires f.Laws() && IsSquare(m, |m|) && k < |m| && UpperTo(f, m, k)
    requires forall r | k <= r < |m| :: m[r][k] == f.zero
    ensures |y| == |m| && y[k] == f.one && InKernel(f, m, y)
  {
    var x := f.Zeros(|m|)[k := f.one];
    forall i | k <= i < |m|
      ensures Dot(f, m[i], x) == f.zero
    {
      DotVanishes(f, m[i], x);
    }
    y := BackSubstitute(f, m, k, k, x);
  }
}
