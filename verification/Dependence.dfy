/** Which rows of a matrix are combinations of others, over any field: a row is one exactly when every vector that the
    others send to zero is sent to zero by it too, and a square matrix is singular exactly when its rows are
    dependent. */
module Dependence {
  import opened GaloisField
  import opened LinearAlgebra

  ghost predicate Width<E>(a: Matrix<E>, n: nat) {
    forall r | 0 <= r < |a| :: |a[r]| == n
  }

  /** The row `t` is a combination of the rows of `a`. */
  ghost predicate Combines<E(!new)>(f: Field<E>, a: Matrix<E>, t: seq<E>)
    requires Width(a, |t|)
  {
    exists w: seq<E> :: |w| == |a| && RowTimes(f, w, a, |t|) == t
  }

  ghost predicate NonZero<E(!new)>(f: Field<E>, w: seq<E>) {
    exists k :: 0 <= k < |w| && w[k] != f.zero
  }

  /** Some combination of the rows that is not trivial is zero. */
  ghost predicate Dependent<E(!new)>(f: Field<E>, a: Matrix<E>, n: nat)
    requires Width(a, n)
  {
    exists w: seq<E> :: |w| == |a| && NonZero(f, w) && RowTimes(f, w, a, n) == f.Zeros(n)
  }

  // ----- clearing a column with a pivot row

  function Factor<E(!new)>(f: Field<E>, p: seq<E>, j: nat, r: seq<E>): E
    requires j < |p| == |r|
  {
    f.mul(r[j], f.inv(p[j]))
  }

  /** The row without its entry `j`, by adding a multiple of the pivot row. */
  function Cleared<E(!new)>(f: Field<E>, p: seq<E>, j: nat, r: seq<E>): (s: seq<E>)
    requires j < |p| == |r|
    ensures |s| == |r|
  {
    f.AddScaled(r, Factor(f, p, j, r), p)
  }

  ghost function AllCleared<E(!new)>(f: Field<E>, p: seq<E>, j: nat, a: Matrix<E>): (b: Matrix<E>)
    requires j < |p| && Width(a, |p|)
    ensures |b| == |a| && Width(b, |p|)
  {
    seq(|a|, r requires 0 <= r < |a| => Cleared(f, p, j, a[r]))
  }

  ghost function Factors<E(!new)>(f: Field<E>, p: seq<E>, j: nat, a: Matrix<E>): seq<E>
    requires j < |p| && Width(a, |p|)
  {
    seq(|a|, r requires 0 <= r < |a| => Factor(f, p, j, a[r]))
  }

  lemma ClearedIsZero<E(!new)>(f: Field<E>, p: seq<E>, j: nat, r: seq<E>)
    requires f.Laws() && j < |p| == |r| && p[j] != f.zero
    ensures Cleared(f, p, j, r)[j] == f.zero
  {
    var i := f.inv(p[j]);
    f.Law(r[j], i, p[j]);
    f.Law(p[j], p[j], p[j]);
    f.Law(f.one, r[j], r[j]);
    f.Law(r[j], f.one, f.one);
  }

  /** On what the pivot row sends to zero, clearing changes nothing. */
  lemma ClearedDot<E(!new)>(f: Field<E>, p: seq<E>, j: nat, r: seq<E>, v: seq<E>)
    requires f.Laws() && j < |p| == |r| == |v| && Dot(f, p, v) == f.zero
    ensures Dot(f, Cleared(f, p, j, r), v) == Dot(f, r, v)
  {
    DotAddScaled(f, r, Factor(f, p, j, r), p, v);
    f.MulZero(Factor(f, p, j, r));
    f.AddZero(Dot(f, r, v));
  }

  /** An entry that meets a zero does not matter. */
  lemma DotIgnores<E(!new)>(f: Field<E>, u: seq<E>, v: seq<E>, j: nat, x: E)
    requires f.Laws() && j < |u| == |v| && u[j] == f.zero
    ensures Dot(f, u, v[j := x]) == Dot(f, u, v)
  {
    var z := v[j := f.zero];
    DotUpdate(f, u, z, j, x);
    DotUpdate(f, u, z, j, v[j]);
    assert z[j := x] == v[j := x] && z[j := v[j]] == v;
    f.MulZero(x);
    f.MulZero(v[j]);
    f.AddZero(Dot(f, u, z));
  }

  /** The vector with its entry `j` chosen such that the pivot row sends it to zero. */
  function Fitted<E(!new)>(f: Field<E>, p: seq<E>, j: nat, v: seq<E>): (u: seq<E>)
    requires j < |p| == |v|
    ensures |u| == |v|
  {
    v[j := f.mul(f.inv(p[j]), Dot(f, p, v[j := f.zero]))]
  }

  lemma FittedIsZero<E(!new)>(f: Field<E>, p: seq<E>, j: nat, v: seq<E>)
    requires f.Laws() && j < |p| == |v| && p[j] != f.zero
    ensures Dot(f, p, Fitted(f, p, j, v)) == f.zero
  {
    var z := v[j := f.zero];
    var d := Dot(f, p, z);
    DotUpdate(f, p, z, j, f.mul(f.inv(p[j]), d));
    assert z[j := f.mul(f.inv(p[j]), d)] == Fitted(f, p, j, v);
    f.MulInv(p[j], d);
    f.Law(p[j], f.inv(p[j]), d);
    f.Law(f.inv(p[j]), p[j], d);
    f.Law(d, d, d);
  }

  /** What the cleared row does to a vector, the row itself does to the fitted one. */
  lemma FittedDot<E(!new)>(f: Field<E>, p: seq<E>, j: nat, r: seq<E>, v: seq<E>)
    requires f.Laws() && j < |p| == |r| == |v| && p[j] != f.zero
    ensures Dot(f, r, Fitted(f, p, j, v)) == Dot(f, Cleared(f, p, j, r), v)
  {
    var u := Fitted(f, p, j, v);
    FittedIsZero(f, p, j, v);
    ClearedDot(f, p, j, r, u);
    ClearedIsZero(f, p, j, r);
    DotIgnores(f, Cleared(f, p, j, r), v, j, u[j]);
  }

  lemma FittedKernel<E(!new)>(f: Field<E>, a: Matrix<E>, j: nat, v: seq<E>)
    requires f.Laws() && a != [] && Width(a, |v|) && j < |v| && a[0][j] != f.zero
    requires InKernel(f, AllCleared(f, a[0], j, a[1..]), v)
    ensures InKernel(f, a, Fitted(f, a[0], j, v))
  {
    var u, b := Fitted(f, a[0], j, v), AllCleared(f, a[0], j, a[1..]);
    FittedIsZero(f, a[0], j, v);
    forall r | 0 <= r < |a|
      ensures Dot(f, a[r], u) == f.zero
    {
      if r > 0 {
        assert b[r - 1] == Cleared(f, a[0], j, a[r]) && Dot(f, b[r - 1], v) == f.zero;
        FittedDot(f, a[0], j, a[r], v);
      }
    }
  }

  // ----- combinations

  /** The first row of a combination. */
  lemma RowTimesFirst<E(!new)>(f: Field<E>, w: seq<E>, a: Matrix<E>, n: nat)
    requires f.Laws() && |w| == |a| > 0 && Width(a, n)
    ensures RowTimes(f, w, a, n) == f.AddScaled(RowTimes(f, w[1..], a[1..], n), w[0], a[0])
  {
    forall c | 0 <= c < n
      ensures RowTimes(f, w, a, n)[c] == f.AddScaled(RowTimes(f, w[1..], a[1..], n), w[0], a[0])[c]
    {
      assert Col(a, c)[1..] == Col(a[1..], c);
      f.Law(f.mul(w[0], a[0][c]), Dot(f, w[1..], Col(a[1..], c)), f.zero);
    }
  }

  /** A combination of cleared rows is one of the rows themselves and the pivot row. */
  lemma RowTimesCleared<E(!new)>(f: Field<E>, w: seq<E>, p: seq<E>, j: nat, a: Matrix<E>)
    requires f.Laws() && |w| == |a| && j < |p| && Width(a, |p|)
    ensures RowTimes(f, w, AllCleared(f, p, j, a), |p|)
         == f.AddScaled(RowTimes(f, w, a, |p|), Dot(f, w, Factors(f, p, j, a)), p)
  {
    var b, cs := AllCleared(f, p, j, a), Factors(f, p, j, a);
    forall c | 0 <= c < |p|
      ensures Dot(f, w, Col(b, c)) == f.add(Dot(f, w, Col(a, c)), f.mul(Dot(f, w, cs), p[c]))
    {
      var sum := f.AddScaled(Col(a, c), p[c], cs);
      forall r | 0 <= r < |a|
        ensures Col(b, c)[r] == sum[r]
      {
        f.Law(cs[r], p[c], p[c]);
      }
      assert Col(b, c) == sum;
      DotSymmetric(f, w, sum);
      DotSymmetric(f, w, Col(a, c));
      DotSymmetric(f, w, cs);
      DotAddScaled(f, Col(a, c), p[c], cs, w);
      f.Law(p[c], Dot(f, w, cs), p[c]);
    }
  }

  lemma AddScaledTwice<E(!new)>(f: Field<E>, u: seq<E>, c: E, d: E, p: seq<E>)
    requires f.Laws() && |u| == |p|
    ensures f.AddScaled(f.AddScaled(u, c, p), d, p) == f.AddScaled(u, f.add(c, d), p)
  {
    forall i | 0 <= i < |u|
      ensures f.add(f.add(u[i], f.mul(c, p[i])), f.mul(d, p[i])) == f.add(u[i], f.mul(f.add(c, d), p[i]))
    {
      f.MulAdd(p[i], c, d);
      f.Law(u[i], f.mul(c, p[i]), f.mul(d, p[i]));
    }
  }

  lemma AddScaledZero<E(!new)>(f: Field<E>, u: seq<E>, p: seq<E>)
    requires f.Laws() && |u| == |p|
    ensures f.AddScaled(u, f.zero, p) == u
  {
    forall i | 0 <= i < |u|
      ensures f.add(u[i], f.mul(f.zero, p[i])) == u[i]
    {
      f.MulZero(p[i]);
      f.AddZero(u[i]);
    }
  }

  /** If the cleared row is a combination of the cleared ones, the row is one of the rows. */
  lemma CombinesBack<E(!new)>(f: Field<E>, a: Matrix<E>, j: nat, t: seq<E>, w: seq<E>) returns (u: seq<E>)
    requires f.Laws() && a != [] && Width(a, |t|) && j < |t| && |w| == |a| - 1
    requires RowTimes(f, w, AllCleared(f, a[0], j, a[1..]), |t|) == Cleared(f, a[0], j, t)
    ensures |u| == |a| && RowTimes(f, u, a, |t|) == t
  {
    var p, rest := a[0], a[1..];
    var c, d := Dot(f, w, Factors(f, p, j, rest)), Factor(f, p, j, t);
    u := [f.add(c, d)] + w;
    assert u[1..] == w;
    RowTimesCleared(f, w, p, j, rest);
    RowTimesFirst(f, u, a, |t|);
    var sum := RowTimes(f, w, rest, |t|);
    AddScaledTwice(f, sum, c, d, p);
    assert f.AddScaled(sum, c, p) == f.AddScaled(t, d, p);
    AddScaledTwice(f, t, d, d, p);
    f.Law(d, d, d);
    AddScaledZero(f, t, p);
  }

  /** Either the row is a combination of the others, or it tells apart two vectors that they do not. */
  lemma {:induction false} CombinesOrSeparates<E(!new)>(f: Field<E>, a: Matrix<E>, t: seq<E>)
    returns (combines: bool, w: seq<E>, v: seq<E>)
    requires f.Laws() && Width(a, |t|)
    ensures combines ==> |w| == |a| && RowTimes(f, w, a, |t|) == t
    ensures !combines ==> |v| == |t| && InKernel(f, a, v) && Dot(f, t, v) != f.zero
    decreases |a|
  {
    if a == [] {
      combines, w, v := NoRows(f, t);
    } else if forall j | 0 <= j < |t| :: a[0][j] == f.zero {
      combines, w, v := CombinesOrSeparates(f, a[1..], t);
      w := [f.zero] + w;
      if combines {
        assert w[1..] == w[1..] && |w[1..]| == |a[1..]|;
        RowTimesFirst(f, w, a, |t|);
        AddScaledZero(f, t, a[0]);
      } else {
        DotVanishes(f, a[0], v);
        assert forall r | 0 < r < |a| :: a[r] == a[1..][r - 1];
      }
    } else {
      var j :| 0 <= j < |t| && a[0][j] != f.zero;
      combines, w, v := CombinesOrSeparates(f, AllCleared(f, a[0], j, a[1..]), Cleared(f, a[0], j, t));
      if combines {
        w := CombinesBack(f, a, j, t, w);
      } else {
        FittedKernel(f, a, j, v);
        FittedDot(f, a[0], j, t, v);
        v := Fitted(f, a[0], j, v);
      }
    }
  }

  lemma NoRows<E(!new)>(f: Field<E>, t: seq<E>) returns (combines: bool, w: seq<E>, v: seq<E>)
    requires f.Laws()
    ensures combines ==> |w| == 0 && RowTimes(f, w, [], |t|) == t
    ensures !combines ==> |v| == |t| && InKernel(f, [], v) && Dot(f, t, v) != f.zero
  {
    w, v := [], f.Zeros(|t|);
    if forall j | 0 <= j < |t| :: t[j] == f.zero {
      combines := true;
    } else {
      combines := false;
      var j :| 0 <= j < |t| && t[j] != f.zero;
      DotVanishes(f, t, v);
      DotUpdate(f, t, v, j, f.one);
      f.Law(t[j], f.one, f.one);
      f.Law(f.one, t[j], f.one);
      f.AddZero(t[j]);
      f.Law(t[j], t[j], t[j]);
      v := v[j := f.one];
    }
  }

  /** A row is a combination of others exactly when it is zero wherever they all are. */
  lemma CombinesExactly<E(!new)>(f: Field<E>, a: Matrix<E>, t: seq<E>)
    requires f.Laws() && Width(a, |t|)
    ensures Combines(f, a, t) <==> forall v: seq<E> | |v| == |t| && InKernel(f, a, v) :: Dot(f, t, v) == f.zero
  {
    if Combines(f, a, t) {
      var w: seq<E> :| |w| == |a| && RowTimes(f, w, a, |t|) == t;
      forall v: seq<E> | |v| == |t| && InKernel(f, a, v)
        ensures Dot(f, t, v) == f.zero
      {
        DotAssociates(f, w, a, v);
        DotVanishes(f, w, Apply(f, a, v));
      }
    } else {
      var combines, w, v := CombinesOrSeparates(f, a, t);
    }
  }

  // ----- fewer rows than columns

  ghost predicate Within<E(!new)>(f: Field<E>, v: seq<E>, columns: set<nat>) {
    forall k | 0 <= k < |v| && k !in columns :: v[k] == f.zero
  }

  ghost function Below(n: nat): (s: set<nat>)
    ensures |s| == n && forall c | c in s :: c < n
  {
    if n == 0 then {} else Below(n - 1) + {n - 1}
  }

  /** Fewer rows than columns send some nonzero vector of these columns to zero. */
  lemma {:induction false} Underdetermined<E(!new)>(f: Field<E>, a: Matrix<E>, n: nat, columns: set<nat>)
    returns (v: seq<E>)
    requires f.Laws() && Width(a, n) && |a| < |columns| && forall c | c in columns :: c < n
    ensures |v| == n && InKernel(f, a, v) && NonZero(f, v) && Within(f, v, columns)
    decreases |a|
  {
    if a == [] {
      assert columns != {};
      var c :| c in columns;
      f.Law(f.one, f.one, f.one);
      v := f.Zeros(n)[c := f.one];
      assert v[c] != f.zero;
    } else if forall j | j in columns :: a[0][j] == f.zero {
      v := Underdetermined(f, a[1..], n, columns);
      DotVanishes(f, a[0], v);
      assert forall r | 0 < r < |a| :: a[r] == a[1..][r - 1];
    } else {
      var j :| j in columns && a[0][j] != f.zero;
      var u := Underdetermined(f, AllCleared(f, a[0], j, a[1..]), n, columns - {j});
      FittedKernel(f, a, j, u);
      v := Fitted(f, a[0], j, u);
      var k :| 0 <= k < n && u[k] != f.zero;
      assert k != j && v[k] == u[k];
    }
  }

  /** The row of a combination that takes part in it vanishes where the others do. */
  lemma OthersDecide<E(!new)>(f: Field<E>, a: Matrix<E>, w: seq<E>, i: nat, v: seq<E>)
    requires f.Laws() && |w| == |a| && i < |a| && w[i] != f.zero && Width(a, |v|)
    requires RowTimes(f, w, a, |v|) == f.Zeros(|v|)
    requires forall r | 0 <= r < |a| && r != i :: Dot(f, a[r], v) == f.zero
    ensures Dot(f, a[i], v) == f.zero
  {
    var x := Apply(f, a, v);
    var z := f.Zeros(|a|);
    assert x == z[i := Dot(f, a[i], v)];
    DotVanishes(f, w, z);
    DotUpdate(f, w, z, i, x[i]);
    f.AddZero(f.mul(w[i], x[i]));
    DotAssociates(f, w, a, v);
    DotVanishes(f, RowTimes(f, w, a, |v|), v);
    f.MulInv(w[i], x[i]);
    f.MulZero(f.inv(w[i]));
  }

  lemma DependentIsSingular<E(!new)>(f: Field<E>, a: Matrix<E>)
    requires f.Laws() && IsSquare(a, |a|) && Dependent(f, a, |a|)
    ensures Singular(f, a)
  {
    var n := |a|;
    var w: seq<E> :| |w| == n && NonZero(f, w) && RowTimes(f, w, a, n) == f.Zeros(n);
    var i :| 0 <= i < n && w[i] != f.zero;
    var rest := a[..i] + a[i + 1..];
    var v := Underdetermined(f, rest, n, Below(n));
    forall r | 0 <= r < n && r != i
      ensures Dot(f, a[r], v) == f.zero
    {
      assert a[r] == rest[if r < i then r else r - 1];
    }
    OthersDecide(f, a, w, i, v);
    assert InKernel(f, a, v);
  }

  ghost function Transposed<E>(a: Matrix<E>): (b: Matrix<E>)
    requires IsSquare(a, |a|)
    ensures IsSquare(b, |a|)
  {
    seq(|a|, c requires 0 <= c < |a| => Col(a, c))
  }

  /** A square matrix is singular exactly when its rows are dependent. */
  lemma SingularExactlyDependent<E(!new)>(f: Field<E>, a: Matrix<E>)
    requires f.Laws() && IsSquare(a, |a|)
    ensures Singular(f, a) <==> Dependent(f, a, |a|)
  {
    var n := |a|;
    if Dependent(f, a, n) {
      DependentIsSingular(f, a);
    }
    if Singular(f, a) {
      var v: seq<E> :| |v| == n && InKernel(f, a, v) && exists k :: 0 <= k < |v| && v[k] != f.zero;
      KernelCombinesColumns(f, a, v);
      DependentIsSingular(f, Transposed(a));
      var w: seq<E> :| |w| == n && InKernel(f, Transposed(a), w) && exists k :: 0 <= k < |w| && w[k] != f.zero;
      KernelCombinesRows(f, a, w);
    }
  }

  lemma KernelCombinesColumns<E(!new)>(f: Field<E>, a: Matrix<E>, v: seq<E>)
    requires f.Laws() && IsSquare(a, |a|) && |v| == |a| && InKernel(f, a, v) && NonZero(f, v)
    ensures Dependent(f, Transposed(a), |a|)
  {
    var b, n := Transposed(a), |a|;
    forall r | 0 <= r < n
      ensures Dot(f, v, Col(b, r)) == f.zero
    {
      assert Col(b, r) == a[r];
      DotSymmetric(f, v, a[r]);
    }
    assert RowTimes(f, v, b, n) == f.Zeros(n);
  }

  lemma KernelCombinesRows<E(!new)>(f: Field<E>, a: Matrix<E>, w: seq<E>)
    requires f.Laws() && IsSquare(a, |a|) && |w| == |a| && InKernel(f, Transposed(a), w) && NonZero(f, w)
    ensures Dependent(f, a, |a|)
  {
    var b, n := Transposed(a), |a|;
    forall c | 0 <= c < n
      ensures Dot(f, w, Col(a, c)) == f.zero
    {
      assert b[c] == Col(a, c);
      DotSymmetric(f, w, b[c]);
    }
    assert RowTimes(f, w, a, n) == f.Zeros(n);
  }

  // ----- the last row

  lemma {:induction false} RowTimesLast<E(!new)>(f: Field<E>, w: seq<E>, a: Matrix<E>, n: nat)
    requires f.Laws() && |w| == |a| > 0 && Width(a, n)
    ensures var m := |a| - 1;
            RowTimes(f, w, a, n) == f.AddScaled(RowTimes(f, w[..m], a[..m], n), w[m], a[m])
    decreases |a|
  {
    var m := |a| - 1;
    RowTimesFirst(f, w, a, n);
    if m == 0 {
      assert w[1..] == w[..0] && a[1..] == a[..0];
    } else {
      RowTimesLast(f, w[1..], a[1..], n);
      RowTimesFirst(f, w[..m], a[..m], n);
      assert w[1..][..m - 1] == w[..m][1..] && a[1..][..m - 1] == a[..m][1..];
      var x := RowTimes(f, w[..m][1..], a[..m][1..], n);
      forall i | 0 <= i < n
        ensures f.add(f.add(x[i], f.mul(w[m], a[m][i])), f.mul(w[0], a[0][i]))
             == f.add(f.add(x[i], f.mul(w[0], a[0][i])), f.mul(w[m], a[m][i]))
      {
        f.Law(x[i], f.mul(w[m], a[m][i]), f.mul(w[0], a[0][i]));
        f.Law(f.mul(w[m], a[m][i]), f.mul(w[0], a[0][i]), x[i]);
        f.Law(x[i], f.mul(w[0], a[0][i]), f.mul(w[m], a[m][i]));
      }
    }
  }

  lemma LastDependent<E(!new)>(f: Field<E>, a: Matrix<E>, n: nat)
    requires f.Laws() && a != [] && Width(a, n)
    ensures Dependent(f, a[..|a| - 1], n) ==> Dependent(f, a, n)
    ensures Combines(f, a[..|a| - 1], a[|a| - 1]) ==> Dependent(f, a, n)
  {
    var m := |a| - 1;
    if Dependent(f, a[..m], n) {
      var w: seq<E> :| |w| == m && NonZero(f, w) && RowTimes(f, w, a[..m], n) == f.Zeros(n);
      var k :| 0 <= k < m && w[k] != f.zero;
      var u := w + [f.zero];
      assert u[..m] == w && u[k] != f.zero;
      RowTimesLast(f, u, a, n);
      AddScaledZero(f, f.Zeros(n), a[m]);
    }
    if Combines(f, a[..m], a[m]) {
      var w: seq<E> :| |w| == m && RowTimes(f, w, a[..m], n) == a[m];
      var u := w + [f.one];
      assert u[..m] == w && u[m] != f.zero;
      RowTimesLast(f, u, a, n);
      forall i | 0 <= i < n
        ensures f.add(a[m][i], f.mul(f.one, a[m][i])) == f.zero
      {
        f.Law(a[m][i], a[m][i], a[m][i]);
      }
      assert RowTimes(f, u, a, n) == f.Zeros(n);
    }
  }

  /** Of dependent rows, the last is a combination of the others unless those are dependent themselves. */
  lemma LastCombines<E(!new)>(f: Field<E>, a: Matrix<E>, n: nat)
    requires f.Laws() && a != [] && Width(a, n) && Dependent(f, a, n)
    ensures Dependent(f, a[..|a| - 1], n) || Combines(f, a[..|a| - 1], a[|a| - 1])
  {
    var m := |a| - 1;
    var w: seq<E> :| |w| == |a| && NonZero(f, w) && RowTimes(f, w, a, n) == f.Zeros(n);
    var k :| 0 <= k < |w| && w[k] != f.zero;
    RowTimesLast(f, w, a, n);
    var sum := RowTimes(f, w[..m], a[..m], n);
    if w[m] == f.zero {
      AddScaledZero(f, sum, a[m]);
      assert w[..m][k] != f.zero;
    } else {
      var q := f.inv(w[m]);
      var u := f.Scale(q, w[..m]);
      forall c | 0 <= c < n
        ensures Dot(f, u, Col(a[..m], c)) == a[m][c]
      {
        DotScale(f, q, w[..m], Col(a[..m], c));
        assert f.AddScaled(sum, w[m], a[m])[c] == f.Zeros(n)[c];
        f.AddCancels(sum[c], f.mul(w[m], a[m][c]));
        f.AddZero(f.mul(w[m], a[m][c]));
        f.MulInv(w[m], a[m][c]);
      }
      assert RowTimes(f, u, a[..m], n) == a[m];
    }
  }

  /** A square matrix is singular exactly when its last row is a combination of the others, or those are dependent. */
  lemma SingularByLastRow<E(!new)>(f: Field<E>, a: Matrix<E>)
    requires f.Laws() && a != [] && IsSquare(a, |a|)
    ensures Singular(f, a)
       <==> Dependent(f, a[..|a| - 1], |a|) || Combines(f, a[..|a| - 1], a[|a| - 1])
  {
    hide Dependent, Combines, Singular;
    SingularExactlyDependent(f, a);
    LastDependent(f, a, |a|);
    if Dependent(f, a, |a|) {
      LastCombines(f, a, |a|);
    }
  }
}
