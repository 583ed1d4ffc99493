/** Gauss elimination on values: a matrix has a left inverse exactly when no nonzero vector is sent to zero. So
    the decoder's step is always defined: full decoding either has a kernel vector to fail on or an inverse. */
module Invertibility {
  import opened GaloisField
  import opened LinearAlgebra
  import opened Elimination

  /** The state of the first phase: the first `i` columns are done. */
  ghost predicate Phase1<E(!new)>(f: Field<E>, m: Matrix<E>, v: Matrix<E>, a: Matrix<E>, i: nat) {
    Tracks(f, m, v, a) && i <= |m| && IsSquare(m, |m|) && |m| == |a| && UpperTo(f, m, i)
  }

  lemma KernelGoesBack<E(!new)>(f: Field<E>, m: Matrix<E>, v: Matrix<E>, a: Matrix<E>, y: seq<E>, k: nat)
    requires f.Laws() && Tracks(f, m, v, a) && |y| == |a| && k < |a| && y[k] == f.one && InKernel(f, m, y)
    ensures Singular(f, a)
  {
    assert InKernel(f, a, y) && y[k] != f.zero;
  }

  /** A unit pivot in row and column `i`. */
  lemma Pivot<E(!new)>(f: Field<E>, m: Matrix<E>, v: Matrix<E>, a: Matrix<E>, i: nat)
    returns (m': Matrix<E>, v': Matrix<E>)
    requires f.Laws() && Phase1(f, m, v, a, i) && i < |a| && !Singular(f, a)
    ensures Phase1(f, m', v', a, i) && m'[i][i] == f.one
  {
    if forall r | i <= r < |m| :: m[r][i] == f.zero {
      var y := NoPivotIsSingular(f, m, i);
      KernelGoesBack(f, m, v, a, y, i);
      assert false;
    } else {
      var j :| i <= j < |m| && m[j][i] != f.zero;
      SwapTracks(f, m, v, a, i, j);
      var s, w := Swapped(m, i, j), Swapped(v, i, j);
      ScaleTracks(f, s, w, a, i);
      var t := f.inv(s[i][i]);
      m', v' := Scaled(f, s, i, t), Scaled(f, w, i, t);
    }
  }

  /** One cell below the pivot is cleared, and those above it stay so. */
  lemma ClearCell<E(!new)>(f: Field<E>, m: Matrix<E>, v: Matrix<E>, a: Matrix<E>, i: nat, j: nat)
    returns (s: Matrix<E>, w: Matrix<E>)
    requires f.Laws() && Phase1(f, m, v, a, i) && i < j < |a| && m[i][i] == f.one
    requires forall r | i < r < j :: m[r][i] == f.zero
    ensures Phase1(f, s, w, a, i) && s[i][i] == f.one && forall r | i < r < j + 1 :: s[r][i] == f.zero
  {
    CombineTracks(f, m, v, a, i, j);
    s, w := Combined(f, m, i, j, m[j][i]), Combined(f, v, i, j, m[j][i]);
  }

  /** The cells below the pivot from row `j` on are cleared, one row at a time. */
  lemma {:induction false} ClearDown<E(!new)>(f: Field<E>, m: Matrix<E>, v: Matrix<E>, a: Matrix<E>, i: nat, j: nat)
    returns (m': Matrix<E>, v': Matrix<E>)
    requires f.Laws() && Phase1(f, m, v, a, i) && i < j <= |a| && m[i][i] == f.one
    requires forall r | i < r < j :: m[r][i] == f.zero
    ensures Phase1(f, m', v', a, i + 1)
    decreases |a| - j
  {
    if j == |a| {
      m', v' := m, v;
    } else {
      var s, w := ClearCell(f, m, v, a, i, j);
      hide Tracks, UpperTo;
      m', v' := ClearDown(f, s, w, a, i, j + 1);
    }
  }

  lemma {:induction false} Triangular<E(!new)>(f: Field<E>, m: Matrix<E>, v: Matrix<E>, a: Matrix<E>, i: nat)
    returns (m': Matrix<E>, v': Matrix<E>)
    requires f.Laws() && Phase1(f, m, v, a, i) && !Singular(f, a)
    ensures Phase1(f, m', v', a, |a|)
    decreases |a| - i
  {
    hide Tracks, Singular, UpperTo;
    if i == |a| {
      m', v' := m, v;
    } else {
      var p, q := Pivot(f, m, v, a, i);
      var c, d := ClearDown(f, p, q, a, i, i + 1);
      m', v' := Triangular(f, c, d, a, i + 1);
    }
  }

  /** The state of the second phase: the columns from `i` on are those of the identity. */
  ghost predicate Phase2<E(!new)>(f: Field<E>, m: Matrix<E>, v: Matrix<E>, a: Matrix<E>, i: nat) {
    && Represents(f, v, a, m) && IsSquare(m, |m|) && |m| == |a| && i <= |m|
    && UpperTo(f, m, |m|) && UnitFrom(f, m, i)
  }

  /** The cells of column `i` above the diagonal from row `j` on are cleared. */
  lemma {:induction false} ClearUp<E(!new)>(f: Field<E>, m: Matrix<E>, v: Matrix<E>, a: Matrix<E>, i: nat, j: nat)
    returns (m': Matrix<E>, v': Matrix<E>)
    requires f.Laws() && Phase2(f, m, v, a, i + 1) && j <= i < |a|
    requires forall r | 0 <= r < j :: m[r][i] == f.zero
    ensures Phase2(f, m', v', a, i)
    decreases i - j
  {
    if j == i {
      m', v' := m, v;
    } else {
      var t := m[j][i];
      UnitRowClearsOneCell(f, m, i, j);
      CombineRepresents(f, v, a, m, i, j, t);
      m', v' := ClearUp(f, m[j := m[j][i := f.zero]], Combined(f, v, i, j, t), a, i, j + 1);
    }
  }

  lemma {:induction false} Diagonal<E(!new)>(f: Field<E>, m: Matrix<E>, v: Matrix<E>, a: Matrix<E>, i: nat)
    returns (m': Matrix<E>, v': Matrix<E>)
    requires f.Laws() && Phase2(f, m, v, a, i)
    ensures Phase2(f, m', v', a, 0)
    decreases i
  {
    hide Phase2;
    if i == 0 {
      m', v' := m, v;
    } else {
      Phase2Bound(f, m, v, a, i);
      var c, d := ClearUp(f, m, v, a, i - 1, 0);
      m', v' := Diagonal(f, c, d, a, i - 1);
    }
  }

  lemma Phase2Bound<E(!new)>(f: Field<E>, m: Matrix<E>, v: Matrix<E>, a: Matrix<E>, i: nat)
    requires Phase2(f, m, v, a, i)
    ensures i <= |a| == |m| && forall r | 0 <= r < |m| :: |m[r]| == |m|
  {
  }

  ghost function Identity<E(!new)>(f: Field<E>, n: nat): Matrix<E> {
    seq(n, r requires 0 <= r < n => seq(n, c requires 0 <= c < n => Delta(f, r, c)))
  }

  lemma Starts<E(!new)>(f: Field<E>, a: Matrix<E>)
    requires f.Laws() && IsSquare(a, |a|)
    ensures Phase1(f, a, Identity(f, |a|), a, 0)
  {
    IdentityRepresents(f, a, Identity(f, |a|));
  }

  lemma SecondPhaseStarts<E(!new)>(f: Field<E>, m: Matrix<E>, v: Matrix<E>, a: Matrix<E>)
    requires Phase1(f, m, v, a, |a|)
    ensures Phase2(f, m, v, a, |a|)
  {
  }

  lemma Ends<E(!new)>(f: Field<E>, m: Matrix<E>, v: Matrix<E>, a: Matrix<E>)
    requires Phase2(f, m, v, a, 0)
    ensures LeftInverse(f, v, a)
  {
  }

  /** A square matrix without kernel vector has a left inverse. */
  lemma NonSingularHasLeftInverse<E(!new)>(f: Field<E>, a: Matrix<E>) returns (l: Matrix<E>)
    requires f.Laws() && IsSquare(a, |a|) && !Singular(f, a)
    ensures LeftInverse(f, l, a)
  {
    hide *;
    Starts(f, a);
    var m, v := Triangular(f, a, Identity(f, |a|), a, 0);
    SecondPhaseStarts(f, m, v, a);
    var m', v' := Diagonal(f, m, v, a, |a|);
    Ends(f, m', v', a);
    l := v';
  }

  /** The two outcomes of an inversion: exactly one of them is possible. */
  lemma SingularExactly<E(!new)>(f: Field<E>, a: Matrix<E>)
    requires f.Laws() && IsSquare(a, |a|)
    ensures Singular(f, a) <==> !(exists l: Matrix<E> :: LeftInverse(f, l, a))
  {
    hide *;
    if Singular(f, a) {
      forall l: Matrix<E>
        ensures !LeftInverse(f, l, a)
      {
        SingularHasNoLeftInverse(f, l, a);
      }
    } else {
      var l := NonSingularHasLeftInverse(f, a);
    }
  }
}
