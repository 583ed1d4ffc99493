/** The inner loops of `attempt_full_decoding`: filling the coefficient matrix, and rebuilding one source
    from a row of its inverse. */
module Rebuilding {
  import opened GaloisField
  import opened LinearAlgebra
  import opened SquareMatrix
  import opened Symbols
  import opened DecoderModel

  lemma {:induction false} DotSnoc<E(!new)>(f: Field<E>, u: seq<E>, v: seq<E>, a: E, b: E)
    requires f.Laws() && |u| == |v|
    ensures Dot(f, u + [a], v + [b]) == f.add(Dot(f, u, v), f.mul(a, b))
  {
    if |u| == 0 {
      f.AddZero(f.mul(a, b));
      assert u + [a] == [a] && v + [b] == [b];
      assert [a][1..] == [] && [b][1..] == [];
      assert Dot(f, [a], [b]) == f.add(f.mul(a, b), Dot(f, [a][1..], [b][1..]));
    } else {
      DotSnoc(f, u[1..], v[1..], a, b);
      assert (u + [a])[1..] == u[1..] + [a] && (v + [b])[1..] == v[1..] + [b];
      f.Law(f.mul(u[0], v[0]), Dot(f, u[1..], v[1..]), f.mul(a, b));
    }
  }

  /** The contribution of the first `j` repairs to position `i` of the symbol. */
  ghost function PartialSymbol<E(!new)>(f: Field<E>, l: seq<E>, rs: seq<Repair<E>>, j: nat, i: nat): E
    requires |l| == |rs| && j <= |rs|
  {
    Dot(f, l[..j], SymbolsAt(f, rs[..j], i))
  }

  ghost function PartialSize<E(!new)>(f: Field<E>, l: seq<E>, rs: seq<Repair<E>>, j: nat, i: nat): E
    requires |l| == |rs| && j <= |rs|
  {
    Dot(f, l[..j], SizesAt(f, rs[..j], i))
  }

  lemma PartialSymbolNext<E(!new)>(f: Field<E>, l: seq<E>, rs: seq<Repair<E>>, j: nat, i: nat)
    requires f.Laws() && |l| == |rs| && j < |rs|
    ensures PartialSymbol(f, l, rs, j + 1, i)
         == f.add(PartialSymbol(f, l, rs, j, i), f.mul(l[j], f.At(rs[j].symbol, i)))
    ensures l[j] == f.zero ==> PartialSymbol(f, l, rs, j + 1, i) == PartialSymbol(f, l, rs, j, i)
  {
    assert l[..j + 1] == l[..j] + [l[j]];
    assert SymbolsAt(f, rs[..j + 1], i) == SymbolsAt(f, rs[..j], i) + [f.At(rs[j].symbol, i)];
    DotSnoc(f, l[..j], SymbolsAt(f, rs[..j], i), l[j], f.At(rs[j].symbol, i));
    f.MulZero(f.At(rs[j].symbol, i));
    f.AddZero(PartialSymbol(f, l, rs, j, i));
  }

  lemma PartialSizeNext<E(!new)>(f: Field<E>, l: seq<E>, rs: seq<Repair<E>>, j: nat, i: nat)
    requires f.Laws() && |l| == |rs| && j < |rs|
    ensures PartialSize(f, l, rs, j + 1, i)
         == f.add(PartialSize(f, l, rs, j, i), f.mul(l[j], f.At(rs[j].size, i)))
    ensures l[j] == f.zero ==> PartialSize(f, l, rs, j + 1, i) == PartialSize(f, l, rs, j, i)
  {
    assert l[..j + 1] == l[..j] + [l[j]];
    assert SizesAt(f, rs[..j + 1], i) == SizesAt(f, rs[..j], i) + [f.At(rs[j].size, i)];
    DotSnoc(f, l[..j], SizesAt(f, rs[..j], i), l[j], f.At(rs[j].size, i));
    f.MulZero(f.At(rs[j].size, i));
    f.AddZero(PartialSize(f, l, rs, j, i));
  }

  /** The buffer after adding repair `j`, read only up to the shorter of the two lengths. */
  lemma AddUpToShorter<E(!new)>(f: Field<E>, l: seq<E>, rs: seq<Repair<E>>, j: nat, data: seq<E>, sz: nat)
    requires f.Laws() && |l| == |rs| && j < |rs|
    requires sz == if |data| < |rs[j].symbol| then |data| else |rs[j].symbol|
    requires forall i | 0 <= i < |data| :: data[i] == PartialSymbol(f, l, rs, j, i)
    ensures forall i | 0 <= i < |data| ::
              f.AddScaled(data, l[j], rs[j].symbol[..sz])[i] == PartialSymbol(f, l, rs, j + 1, i)
  {
    forall i | 0 <= i < |data|
      ensures f.AddScaled(data, l[j], rs[j].symbol[..sz])[i] == PartialSymbol(f, l, rs, j + 1, i)
    {
      PartialSymbolNext(f, l, rs, j, i);
      f.MulZero(l[j]);
      f.AddZero(data[i]);
    }
  }

  /** The size of a source, from the encoded sizes of the repairs. */
  method RebuildSize<E(==,!new)>(f: Field<E>, inv: SquareMatrix<E>, rs: seq<Repair<E>>, k: nat) returns (size: seq<E>)
    requires f.Laws() && inv.Valid() && inv.dimension == |rs| && k < |rs|
    requires forall j | 0 <= j < |rs| :: |rs[j].size| == f.sizeLen
    ensures |inv.rows[k]| == |rs|
    ensures |size| == f.sizeLen && forall i | 0 <= i < f.sizeLen :: size[i] == Dot(f, inv.rows[k], SizesAt(f, rs, i))
  {
    ghost var l := inv.rows[k];
    CellOfRows(inv.vec[..], inv.dimension, inv.rows, k, k);
    size := f.Zeros(f.sizeLen);
    for j := 0 to |rs|
      invariant |size| == f.sizeLen
      invariant forall i | 0 <= i < f.sizeLen :: size[i] == PartialSize(f, l, rs, j, i)
    {
      var coeff := inv.Get(k, j);
      forall i | 0 <= i < f.sizeLen {
        PartialSizeNext(f, l, rs, j, i);
      }
      if coeff != f.zero {
        size := f.AddScaled(size, coeff, rs[j].size);
      }
    }
    assert l[..|rs|] == l && rs[..|rs|] == rs;
  }

  /** The first repair with a coefficient for the source: there is one. */
  method FirstCoefficient<E(==,!new)>(f: Field<E>, inv: SquareMatrix<E>, k: nat) returns (j: nat, coeff: E)
    requires inv.Valid() && k < inv.dimension
    requires exists j :: 0 <= j < |inv.rows[k]| && inv.rows[k][j] != f.zero
    ensures |inv.rows[k]| == inv.dimension && j < inv.dimension && coeff == inv.rows[k][j] && coeff != f.zero
    ensures forall x | 0 <= x < j :: inv.rows[k][x] == f.zero
  {
    j := 0;
    coeff := inv.Get(k, 0);
    while j < inv.dimension && coeff == f.zero
      invariant j <= inv.dimension && (j < inv.dimension ==> coeff == inv.rows[k][j])
      invariant forall x | 0 <= x < j :: inv.rows[k][x] == f.zero
    {
      j := j + 1;
      if j < inv.dimension {
        coeff := inv.Get(k, j);
      }
    }
    assert j != inv.dimension; // there is a coefficient for the missing source
  }

  lemma ZeroPrefix<E(!new)>(f: Field<E>, l: seq<E>, rs: seq<Repair<E>>, j: nat, i: nat)
    requires f.Laws() && |l| == |rs| && j <= |rs| && forall x | 0 <= x < j :: l[x] == f.zero
    ensures PartialSymbol(f, l, rs, j, i) == f.zero
  {
    DotVanishes(f, l[..j], SymbolsAt(f, rs[..j], i));
  }

  /** The data of a source of the given size. No symbol is read past its end. */
  method RebuildData<E(==,!new)>(f: Field<E>, inv: SquareMatrix<E>, rs: seq<Repair<E>>, k: nat,
          size: nat) returns (data: seq<E>)
    requires f.Laws() && inv.Valid() && inv.dimension == |rs| && k < |rs|
    requires exists j :: 0 <= j < |inv.rows[k]| && inv.rows[k][j] != f.zero
    ensures |inv.rows[k]| == |rs|
    ensures |data| == size && forall i | 0 <= i < size :: data[i] == Dot(f, inv.rows[k], SymbolsAt(f, rs, i))
  {
    ghost var l := inv.rows[k];
    data := f.Zeros(size);
    var j, coeff := FirstCoefficient(f, inv, k);
    forall i | 0 <= i < size {
      ZeroPrefix(f, l, rs, j, i);
    }
    var sz := if size < |rs[j].symbol| then size else |rs[j].symbol|;
    MultiplyIsAdd(f, data, coeff, rs[j].symbol[..sz]);
    AddUpToShorter(f, l, rs, j, data, sz);
    data := f.Scale(coeff, rs[j].symbol[..sz]) + data[sz..];
    j := j + 1;
    while j < |rs|
      invariant j <= |rs| && |data| == size
      invariant forall i | 0 <= i < size :: data[i] == PartialSymbol(f, l, rs, j, i)
    {
      data := AddRepair(f, inv, rs, k, j, data);
      j := j + 1;
    }
    assert l[..|rs|] == l && rs[..|rs|] == rs;
  }

  method AddRepair<E(==,!new)>(f: Field<E>, inv: SquareMatrix<E>, rs: seq<Repair<E>>, k: nat, j: nat,
          data: seq<E>) returns (r: seq<E>)
    requires f.Laws() && inv.Valid() && inv.dimension == |rs| && k < |rs| && j < |rs|
    requires |inv.rows[k]| == |rs|
    requires forall i | 0 <= i < |data| :: data[i] == PartialSymbol(f, inv.rows[k], rs, j, i)
    ensures |r| == |data|
    ensures forall i | 0 <= i < |r| :: r[i] == PartialSymbol(f, inv.rows[k], rs, j + 1, i)
  {
    var coeff := inv.Get(k, j);
    if coeff != f.zero {
      var sz := if |data| < |rs[j].symbol| then |data| else |rs[j].symbol|;
      AddUpToShorter(f, inv.rows[k], rs, j, data, sz);
      r := f.AddScaled(data, coeff, rs[j].symbol[..sz]);
    } else {
      forall i | 0 <= i < |data| {
        PartialSymbolNext(f, inv.rows[k], rs, j, i);
      }
      r := data;
    }
  }

  /** On a zeroed buffer, writing the product is adding it. */
  lemma MultiplyIsAdd<E(!new)>(f: Field<E>, data: seq<E>, c: E, v: seq<E>)
    requires f.Laws() && |v| <= |data| && forall i | 0 <= i < |data| :: data[i] == f.zero
    ensures f.Scale(c, v) + data[|v|..] == f.AddScaled(data, c, v)
  {
    forall i | 0 <= i < |v|
      ensures f.mul(c, v[i]) == f.add(data[i], f.mul(c, v[i]))
    {
      f.AddZero(f.mul(c, v[i]));
    }
  }

  /** One column of the matrix per repair, one row per missing source. */
  method FillCoefficients<E(==,!new)>(f: Field<E>, m: SquareMatrix<E>, rs: seq<Repair<E>>, ms: seq<nat>)
    requires m.Valid() && m.dimension == |rs| == |ms|
    modifies m`rows, m.vec
    ensures m.Valid() && m.rows == CoefficientsOf(f, rs, ms)
  {
    for col := 0 to |rs|
      invariant m.Valid() && IsSquare(m.rows, |rs|)
      invariant forall j | 0 <= j < col :: m.rows[j] == Entries(f, rs[j].id, rs[j].ids, ms)
    {
      ghost var before := m.rows;
      for row := 0 to |ms|
        invariant m.Valid() && IsSquare(m.rows, |rs|)
        invariant forall j | 0 <= j < |rs| && j != col :: m.rows[j] == before[j]
        invariant forall x | 0 <= x < row :: m.rows[col][x] == Entry(f, rs[col].id, rs[col].ids, ms[x])
      {
        m.Put(row, col, if ms[row] in rs[col].ids then f.Coefficient(rs[col].id, ms[row]) else f.zero);
      }
      assert m.rows[col] == Entries(f, rs[col].id, rs[col].ids, ms);
    }
  }
}
