/** Vectors and square matrices over a field: dot products, kernels and left inverses. A matrix is the
    sequence of its rows. */
module LinearAlgebra {
  import opened GaloisField

  type Matrix<E> = seq<seq<E>>

  ghost predicate IsSquare<E>(a: Matrix<E>, n: nat) {
    |a| == n && forall r | 0 <= r < n :: |a[r]| == n
  }

  function Dot<E(!new)>(f: Field<E>, u: seq<E>, v: seq<E>): E
    requires |u| == |v|
  {
    if |u| == 0 then f.zero else f.add(f.mul(u[0], v[0]), Dot(f, u[1..], v[1..]))
  }

  ghost function Col<E>(a: Matrix<E>, c: nat): seq<E>
    requires forall r | 0 <= r < |a| :: c < |a[r]|
  {
    seq(|a|, r requires 0 <= r < |a| => a[r][c])
  }

  function Delta<E(!new)>(f: Field<E>, r: nat, c: nat): E {
    if r == c then f.one else f.zero
  }

  /** A v == 0. */
  ghost predicate InKernel<E(!new)>(f: Field<E>, a: Matrix<E>, v: seq<E>) {
    forall r | 0 <= r < |a| :: |a[r]| == |v| && Dot(f, a[r], v) == f.zero
  }

  /** Some nonzero vector is sent to zero. */
  ghost predicate Singular<E(!new)>(f: Field<E>, a: Matrix<E>) {
    exists v: seq<E> :: |v| == |a| && InKernel(f, a, v) && exists k :: 0 <= k < |v| && v[k] != f.zero
  }

  /** L A == I. */
  ghost predicate LeftInverse<E(!new)>(f: Field<E>, l: Matrix<E>, a: Matrix<E>) {
    && IsSquare(l, |a|)
    && IsSquare(a, |a|)
    && forall r, c | 0 <= r < |a| && 0 <= c < |a| :: Dot(f, l[r], Col(a, c)) == Delta(f, r, c)
  }

  // ----- dot products

  lemma DotSymmetric<E(!new)>(f: Field<E>, u: seq<E>, v: seq<E>)
    requires f.Laws() && |u| == |v|
    ensures Dot(f, u, v) == Dot(f, v, u)
  {
    if |u| > 0 {
      f.Law(u[0], v[0], v[0]);
      DotSymmetric(f, u[1..], v[1..]);
    }
  }

  lemma {:induction false} DotScale<E(!new)>(f: Field<E>, c: E, u: seq<E>, v: seq<E>)
    requires f.Laws() && |u| == |v|
    ensures Dot(f, f.Scale(c, u), v) == f.mul(c, Dot(f, u, v))
  {
    if |u| == 0 {
      f.MulZero(c);
    } else {
      DotScale(f, c, u[1..], v[1..]);
      assert f.Scale(c, u)[1..] == f.Scale(c, u[1..]);
      f.Law(c, u[0], v[0]);
      f.MulAdd(c, f.mul(u[0], v[0]), Dot(f, u[1..], v[1..]));
    }
  }

  lemma {:induction false} DotAddScaled<E(!new)>(f: Field<E>, u: seq<E>, c: E, w: seq<E>, v: seq<E>)
    requires f.Laws() && |u| == |w| == |v|
    ensures Dot(f, f.AddScaled(u, c, w), v) == f.add(Dot(f, u, v), f.mul(c, Dot(f, w, v)))
  {
    if |u| == 0 {
      f.MulZero(c);
      f.AddZero(f.zero);
    } else {
      var du, dw := Dot(f, u[1..], v[1..]), Dot(f, w[1..], v[1..]);
      DotAddScaled(f, u[1..], c, w[1..], v[1..]);
      assert f.AddScaled(u, c, w)[1..] == f.AddScaled(u[1..], c, w[1..]);
      HeadAddScaled(f, u[0], c, w[0], v[0], du, dw);
    }
  }

  lemma HeadAddScaled<E(!new)>(f: Field<E>, u: E, c: E, w: E, v: E, du: E, dw: E)
    requires f.Laws()
    ensures f.add(f.mul(f.add(u, f.mul(c, w)), v), f.add(du, f.mul(c, dw)))
         == f.add(f.add(f.mul(u, v), du), f.mul(c, f.add(f.mul(w, v), dw)))
  {
    f.MulAdd(v, u, f.mul(c, w));
    f.Law(c, w, v);
    f.MulAdd(c, f.mul(w, v), dw);
    f.AddCross(f.mul(u, v), f.mul(c, f.mul(w, v)), du, f.mul(c, dw));
  }

  /** A vector that meets only zeros has dot product zero. */
  lemma DotVanishes<E(!new)>(f: Field<E>, u: seq<E>, v: seq<E>)
    requires f.Laws() && |u| == |v|
    requires forall k | 0 <= k < |u| :: u[k] == f.zero || v[k] == f.zero
    ensures Dot(f, u, v) == f.zero
  {
    if |u| > 0 {
      DotVanishes(f, u[1..], v[1..]);
      f.MulZero(u[0]);
      f.MulZero(v[0]);
      f.AddZero(f.zero);
    }
  }

  /** Changing entry `k` of `v` from zero to `t` adds `u[k] t`. */
  lemma DotUpdate<E(!new)>(f: Field<E>, u: seq<E>, v: seq<E>, k: nat, t: E)
    requires f.Laws() && k < |u| == |v| && v[k] == f.zero
    ensures Dot(f, u, v[k := t]) == f.add(Dot(f, u, v), f.mul(u[k], t))
  {
    var w := v[k := t];
    if k == 0 {
      assert w[1..] == v[1..];
      f.MulZero(u[0]);
      f.AddZero(Dot(f, u[1..], v[1..]));
      f.Law(f.mul(u[0], t), Dot(f, u[1..], v[1..]), f.zero);
    } else {
      DotUpdate(f, u[1..], v[1..], k - 1, t);
      assert w[1..] == v[1..][k - 1 := t];
      f.Law(f.mul(u[0], v[0]), Dot(f, u[1..], v[1..]), f.mul(u[k], t));
    }
  }

  /** A unit vector picks one entry. */
  lemma DotUnit<E(!new)>(f: Field<E>, u: seq<E>, v: seq<E>, k: nat)
    requires f.Laws() && k < |u| == |v|
    requires forall j | 0 <= j < |u| :: u[j] == Delta(f, j, k)
    ensures Dot(f, u, v) == v[k]
  {
    var z := u[k := f.zero];
    DotVanishes(f, z, v);
    DotSymmetric(f, z, v);
    DotSymmetric(f, u, v);
    assert z[k := f.one] == u;
    DotUpdate(f, v, z, k, f.one);
    f.AddZero(f.mul(v[k], f.one));
    f.Law(v[k], f.one, f.one);
    f.Law(f.one, v[k], f.one);
    f.Law(v[k], v[k], v[k]);
  }

  lemma DotOfTwo<E(!new)>(f: Field<E>, x: E, y: E, v: seq<E>)
    requires f.Laws() && |v| == 2
    ensures Dot(f, [x, y], v) == f.add(f.mul(x, v[0]), f.mul(y, v[1]))
  {
    assert [x, y][1..] == [y] && [y][1..] == [] && v[1..][1..] == [];
    assert Dot(f, [y], v[1..]) == f.add(f.mul(y, v[1]), Dot(f, [], []));
    f.AddZero(f.mul(y, v[1]));
  }

  lemma DotOfThree<E(!new)>(f: Field<E>, x: E, y: E, z: E, v: seq<E>)
    requires f.Laws() && |v| == 3
    ensures Dot(f, [x, y, z], v) == f.add(f.mul(x, v[0]), f.add(f.mul(y, v[1]), f.mul(z, v[2])))
  {
    assert [x, y, z][1..] == [y, z];
    DotOfTwo(f, y, z, v[1..]);
  }

  // ----- row combinations

  ghost function Apply<E(!new)>(f: Field<E>, a: Matrix<E>, x: seq<E>): seq<E>
    requires forall r | 0 <= r < |a| :: |a[r]| == |x|
  {
    seq(|a|, r requires 0 <= r < |a| => Dot(f, a[r], x))
  }

  /** The row vector u A, of width `n`. */
  ghost function RowTimes<E(!new)>(f: Field<E>, u: seq<E>, a: Matrix<E>, n: nat): seq<E>
    requires |u| == |a| && forall r | 0 <= r < |a| :: |a[r]| == n
  {
    seq(n, c requires 0 <= c < n => Dot(f, u, Col(a, c)))
  }

  /** u (A x) == (u A) x. */
  lemma {:induction false} DotAssociates<E(!new)>(f: Field<E>, u: seq<E>, a: Matrix<E>, x: seq<E>)
    requires f.Laws() && |u| == |a| && forall r | 0 <= r < |a| :: |a[r]| == |x|
    ensures Dot(f, u, Apply(f, a, x)) == Dot(f, RowTimes(f, u, a, |x|), x)
  {
    var n := |x|;
    if |u| == 0 {
      DotVanishes(f, RowTimes(f, u, a, n), x);
    } else {
      DotAssociates(f, u[1..], a[1..], x);
      var rest := RowTimes(f, u[1..], a[1..], n);
      assert Apply(f, a, x)[1..] == Apply(f, a[1..], x);
      var sum := f.AddScaled(rest, u[0], a[0]);
      forall c | 0 <= c < n
        ensures RowTimes(f, u, a, n)[c] == sum[c]
      {
        assert Col(a, c)[1..] == Col(a[1..], c);
        f.Law(f.mul(u[0], a[0][c]), rest[c], rest[c]);
      }
      assert RowTimes(f, u, a, n) == sum;
      DotAddScaled(f, rest, u[0], a[0], x);
      f.Law(f.mul(u[0], Dot(f, a[0], x)), Dot(f, rest, x), f.zero);
    }
  }

  /** A left inverse undoes the matrix: if A x == b then L b == x. */
  lemma LeftInverseSolves<E(!new)>(f: Field<E>, l: Matrix<E>, a: Matrix<E>, x: seq<E>, k: nat)
    requires f.Laws() && LeftInverse(f, l, a) && |x| == |a| && k < |a|
    ensures Dot(f, l[k], Apply(f, a, x)) == x[k]
  {
    DotAssociates(f, l[k], a, x);
    DotUnit(f, RowTimes(f, l[k], a, |x|), x, k);
  }

  /** A singular matrix has no left inverse: the two outcomes of an inversion exclude each other. */
  lemma SingularHasNoLeftInverse<E(!new)>(f: Field<E>, l: Matrix<E>, a: Matrix<E>)
    requires f.Laws() && Singular(f, a)
    ensures !LeftInverse(f, l, a)
  {
    if LeftInverse(f, l, a) {
      var v: seq<E> :| |v| == |a| && InKernel(f, a, v) && exists k :: 0 <= k < |v| && v[k] != f.zero;
      var k :| 0 <= k < |v| && v[k] != f.zero;
      LeftInverseSolves(f, l, a, v, k);
      DotVanishes(f, l[k], Apply(f, a, v));
    }
  }

  /** No row of a left inverse is zero. */
  lemma LeftInverseRowNonZero<E(!new)>(f: Field<E>, l: Matrix<E>, a: Matrix<E>, k: nat)
    requires f.Laws() && LeftInverse(f, l, a) && k < |a|
    ensures exists j :: 0 <= j < |a| && l[k][j] != f.zero
  {
    if forall j | 0 <= j < |a| :: l[k][j] == f.zero {
      DotVanishes(f, l[k], Col(a, k));
    }
  }
}
