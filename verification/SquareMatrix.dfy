/** `netcode/detail/square_matrix.hh`: a resizable square matrix in one flat buffer. The buffer is filled
    with `Put(row, col)`, which addresses cell `col * n + row`, and inverted as a sequence of rows of `n`
    cells: what the decoder calls column `j` is row `j` of the matrix that is inverted. */
module SquareMatrix {
  import opened GaloisField
  import opened LinearAlgebra
  import opened Elimination

  // ----- index arithmetic

  lemma ProductGrows(a: nat, b: nat, n: nat)
    requires a <= b
    ensures a * n <= b * n
  {
    assert b * n == a * n + (b - a) * n;
    assert (b - a) * n >= 0;
  }

  lemma NextRow(r: nat, n: nat)
    ensures (r + 1) * n == r * n + n
  {
  }

  lemma RowBounds(n: nat, r: nat)
    requires r < n
    ensures 0 <= r * n && r * n + n <= n * n
  {
    NextRow(r, n);
    ProductGrows(r + 1, n, n);
  }

  lemma RowsApart(n: nat, r: nat, q: nat)
    requires r != q
    ensures r * n + n <= q * n || q * n + n <= r * n
  {
    if r < q {
      NextRow(r, n);
      ProductGrows(r + 1, q, n);
    } else {
      NextRow(q, n);
      ProductGrows(q + 1, r, n);
    }
  }

  // ----- a flat buffer seen as rows

  ghost function Row<E>(s: seq<E>, n: nat, r: nat): (row: seq<E>)
    requires |s| == n * n && r < n
    ensures |row| == n
  {
    RowBounds(n, r);
    s[r * n..r * n + n]
  }

  ghost predicate IsRows<E>(s: seq<E>, n: nat, rows: Matrix<E>) {
    && |s| == n * n
    && |rows| == n
    && forall r | 0 <= r < n :: rows[r] == Row(s, n, r)
  }

  lemma CellOfRows<E>(s: seq<E>, n: nat, rows: Matrix<E>, r: nat, c: nat)
    requires IsRows(s, n, rows) && r < n && c < n
    ensures 0 <= r * n + c < |s| && |rows[r]| == n && rows[r][c] == s[r * n + c]
  {
    RowBounds(n, r);
  }

  lemma RowReplaced<E>(s: seq<E>, t: seq<E>, n: nat, rows: Matrix<E>, i: nat, v: seq<E>)
    requires IsRows(s, n, rows) && |t| == n * n && i < n
    requires Row(t, n, i) == v
    requires forall p | 0 <= p < |s| && !(i * n <= p < i * n + n) :: t[p] == s[p]
    ensures IsRows(t, n, rows[i := v])
  {
    forall r | 0 <= r < n && r != i
      ensures Row(t, n, r) == Row(s, n, r)
    {
      RowBounds(n, r);
      RowsApart(n, i, r);
    }
  }

  lemma RowsSwapped<E>(s: seq<E>, t: seq<E>, n: nat, rows: Matrix<E>, i: nat, j: nat)
    requires IsRows(s, n, rows) && |t| == n * n && i < n && j < n && i != j
    requires Row(t, n, i) == rows[j] && Row(t, n, j) == rows[i]
    requires forall p | 0 <= p < |s| && !(i * n <= p < i * n + n) && !(j * n <= p < j * n + n) :: t[p] == s[p]
    ensures IsRows(t, n, Swapped(rows, i, j))
  {
    forall r | 0 <= r < n && r != i && r != j
      ensures Row(t, n, r) == Row(s, n, r)
    {
      RowBounds(n, r);
      RowsApart(n, i, r);
      RowsApart(n, j, r);
    }
  }

  // ----- the inner loops, on regions of the buffer

  method SwapRegions<E>(a: array<E>, p: nat, q: nat, n: nat)
    requires p + n <= a.Length && q + n <= a.Length && (p + n <= q || q + n <= p)
    modifies a
    ensures a[p..p + n] == old(a[q..q + n]) && a[q..q + n] == old(a[p..p + n])
    ensures forall x | 0 <= x < a.Length && !(p <= x < p + n) && !(q <= x < q + n) :: a[x] == old(a[x])
  {
    for k := 0 to n
      invariant a[p..p + k] == old(a[q..q + k]) && a[q..q + k] == old(a[p..p + k])
      invariant forall x | 0 <= x < a.Length && !(p <= x < p + k) && !(q <= x < q + k) :: a[x] == old(a[x])
    {
      a[p + k], a[q + k] := a[q + k], a[p + k];
    }
  }

  method ScaleRegion<E(!new)>(f: Field<E>, a: array<E>, p: nat, n: nat, c: E)
    requires p + n <= a.Length
    modifies a
    ensures a[p..p + n] == f.Scale(c, old(a[p..p + n]))
    ensures forall x | 0 <= x < a.Length && !(p <= x < p + n) :: a[x] == old(a[x])
  {
    for k := 0 to n
      invariant forall x | p <= x < p + k :: a[x] == f.mul(c, old(a[x]))
      invariant forall x | 0 <= x < a.Length && !(p <= x < p + k) :: a[x] == old(a[x])
    {
      a[p + k] := f.mul(c, a[p + k]);
    }
  }

  /** Adds `c` times the region at `p` to the region at `q`. */
  method CombineRegions<E(!new)>(f: Field<E>, a: array<E>, p: nat, q: nat, n: nat, c: E)
    requires p + n <= a.Length && q + n <= a.Length && (p + n <= q || q + n <= p)
    modifies a
    ensures a[q..q + n] == f.AddScaled(old(a[q..q + n]), c, old(a[p..p + n]))
    ensures forall x | 0 <= x < a.Length && !(q <= x < q + n) :: a[x] == old(a[x])
  {
    ghost var d := p - q;
    for k := 0 to n
      invariant forall x | q <= x < q + k :: a[x] == f.add(old(a[x]), f.mul(c, old(a[x + d])))
      invariant forall x | 0 <= x < a.Length && !(q <= x < q + k) :: a[x] == old(a[x])
    {
      a[q + k] := f.add(a[q + k], f.mul(c, a[p + k]));
    }
  }

  /** The branch for a factor of one. */
  method XorRegions<E(!new)>(f: Field<E>, a: array<E>, p: nat, q: nat, n: nat)
    requires f.Laws() && p + n <= a.Length && q + n <= a.Length && (p + n <= q || q + n <= p)
    modifies a
    ensures a[q..q + n] == f.AddScaled(old(a[q..q + n]), f.one, old(a[p..p + n]))
    ensures forall x | 0 <= x < a.Length && !(q <= x < q + n) :: a[x] == old(a[x])
  {
    ghost var d := p - q;
    for k := 0 to n
      invariant forall x | q <= x < q + k :: a[x] == f.add(old(a[x]), f.mul(f.one, old(a[x + d])))
      invariant forall x | 0 <= x < a.Length && !(q <= x < q + k) :: a[x] == old(a[x])
    {
      f.Law(a[p + k], a[p + k], a[p + k]);
      a[q + k] := f.add(a[q + k], a[p + k]);
    }
  }

  class SquareMatrix<E(!new)> {
    var dimension: nat
    var vec: array<E>
    ghost var rows: Matrix<E>

    ghost predicate Valid()
      reads this, vec
    {
      IsRows(vec[..], dimension, rows)
    }

    constructor (n: nat, fill: E)
      ensures Valid() && fresh(vec) && dimension == n
    {
      dimension := n;
      var v := new E[n * n](_ => fill);
      vec := v;
      rows := seq(n, r requires 0 <= r < n => Row(seq(n * n, _ => fill), n, r));
      new;
      assert vec[..] == seq(n * n, _ => fill);
    }

    /** operator[](r * n + c) */
    method Get(r: nat, c: nat) returns (e: E)
      requires Valid() && r < dimension && c < dimension
      ensures |rows[r]| == dimension && e == rows[r][c]
    {
      CellOfRows(vec[..], dimension, rows, r, c);
      e := vec[r * dimension + c];
    }

    method Set(r: nat, c: nat, e: E)
      requires Valid() && r < dimension && c < dimension
      modifies this`rows, vec
      ensures Valid() && |old(rows[r])| == dimension && rows == old(rows)[r := old(rows)[r][c := e]]
    {
      CellOfRows(vec[..], dimension, rows, r, c);
      RowBounds(dimension, r);
      vec[r * dimension + c] := e;
      assert Row(vec[..], dimension, r) == rows[r][c := e];
      RowReplaced(old(vec[..]), vec[..], dimension, rows, r, rows[r][c := e]);
      rows := rows[r := rows[r][c := e]];
    }

    /** operator()(row, col) := e: the two indices address the buffer column by column. */
    method Put(row: nat, col: nat, e: E)
      requires Valid() && row < dimension && col < dimension
      modifies this`rows, vec
      ensures Valid() && |old(rows[col])| == dimension && rows == old(rows)[col := old(rows)[col][row := e]]
    {
      Set(col, row, e);
    }

    method SwapRows(i: nat, j: nat)
      requires Valid() && i < dimension && j < dimension && i != j
      modifies this`rows, vec
      ensures Valid() && rows == Swapped(old(rows), i, j)
    {
      RowBounds(dimension, i);
      RowBounds(dimension, j);
      RowsApart(dimension, i, j);
      SwapRegions(vec, i * dimension, j * dimension, dimension);
      RowsSwapped(old(vec[..]), vec[..], dimension, rows, i, j);
      rows := Swapped(rows, i, j);
    }

    method ScaleRow(f: Field<E>, i: nat, c: E)
      requires Valid() && i < dimension
      modifies this`rows, vec
      ensures Valid() && rows == Scaled(f, old(rows), i, c)
    {
      RowBounds(dimension, i);
      ScaleRegion(f, vec, i * dimension, dimension, c);
      RowReplaced(old(vec[..]), vec[..], dimension, rows, i, f.Scale(c, rows[i]));
      rows := Scaled(f, rows, i, c);
    }

    method CombineRows(f: Field<E>, i: nat, j: nat, c: E)
      requires Valid() && i < dimension && j < dimension && i != j
      modifies this`rows, vec
      ensures Valid() && rows == Combined(f, old(rows), i, j, c)
    {
      RowBounds(dimension, i);
      RowBounds(dimension, j);
      RowsApart(dimension, i, j);
      CombineRegions(f, vec, i * dimension, j * dimension, dimension, c);
      RowReplaced(old(vec[..]), vec[..], dimension, rows, j, f.AddScaled(rows[j], c, rows[i]));
      rows := Combined(f, rows, i, j, c);
    }

    method XorRows(f: Field<E>, i: nat, j: nat)
      requires f.Laws() && Valid() && i < dimension && j < dimension && i != j
      modifies this`rows, vec
      ensures Valid() && rows == Combined(f, old(rows), i, j, f.one)
    {
      RowBounds(dimension, i);
      RowBounds(dimension, j);
      RowsApart(dimension, i, j);
      XorRegions(f, vec, i * dimension, j * dimension, dimension);
      RowReplaced(old(vec[..]), vec[..], dimension, rows, j, f.AddScaled(rows[j], f.one, rows[i]));
      rows := Combined(f, rows, i, j, f.one);
    }
  }
}
