/** Sources, repairs, and the linear equation that a repair stands for. A symbol is a sequence of field
    elements; a repair holds, for every position, the sum of its sources at this position, each times
    its coefficient. */
module Symbols {
  import opened GaloisField
  import opened Ids

  datatype Source<E> = Source(id: nat, data: seq<E>)

  /** `size` is the encoded size: the combination of the encoded sizes of the sources. */
  datatype Repair<E> = Repair(id: nat, size: seq<E>, ids: set<nat>, symbol: seq<E>)

  /** What was committed under each identifier. */
  type Truth<E> = map<nat, seq<E>>

  ghost predicate TruthOk<E(!new)>(f: Field<E>, truth: Truth<E>) {
    forall s | s in truth :: 0 < |truth[s]| <= f.maxSize
  }

  /** A source as one vector: its encoded size, then its data. */
  ghost function Word<E(!new)>(f: Field<E>, d: seq<E>): seq<E> {
    f.enc(|d|) + d
  }

  /** The sum over `ids` of coefficient times source, at position `i` of the vectors. */
  ghost function Comb<E(!new)>(f: Field<E>, repairId: nat, ids: set<nat>, truth: Truth<E>, i: nat): E
    requires ids <= truth.Keys
  {
    if ids == {} then f.zero
    else
      var s := Min(ids);
      f.add(Term(f, repairId, s, truth, i), Comb(f, repairId, ids - {s}, truth, i))
  }

  ghost function Term<E(!new)>(f: Field<E>, repairId: nat, s: nat, truth: Truth<E>, i: nat): E
    requires s in truth
  {
    f.mul(f.Coefficient(repairId, s), f.At(Word(f, truth[s]), i))
  }

  /** The repair is the combination of the committed sources it lists. */
  ghost predicate RepairOk<E(!new)>(f: Field<E>, truth: Truth<E>, r: Repair<E>) {
    && r.ids <= truth.Keys
    && |r.size| == f.sizeLen
    && (forall s | s in r.ids :: |truth[s]| <= |r.symbol|)
    && (forall i: nat :: f.At(r.size + r.symbol, i) == Comb(f, r.id, r.ids, truth, i))
  }

  // ----- the order of summation does not matter

  lemma {:induction false} CombRemove<E(!new)>(f: Field<E>, repairId: nat, ids: set<nat>, truth: Truth<E>, i: nat,
          s: nat)
    requires f.Laws() && ids <= truth.Keys && s in ids
    ensures Comb(f, repairId, ids, truth, i)
         == f.add(Term(f, repairId, s, truth, i), Comb(f, repairId, ids - {s}, truth, i))
  {
    var m := Min(ids);
    if s != m {
      CombRemove(f, repairId, ids - {m}, truth, i, s);
      assert ids - {m} - {s} == ids - {s} - {m};
      assert m in ids - {s};
      MinIs(ids - {s}, m);
      f.AddSwap(Term(f, repairId, m, truth, i), Term(f, repairId, s, truth, i),
                Comb(f, repairId, ids - {m} - {s}, truth, i));
    }
  }

  lemma CombSame<E(!new)>(f: Field<E>, repairId: nat, ids: set<nat>, truth: Truth<E>, truth': Truth<E>, i: nat)
    requires ids <= truth.Keys && ids <= truth'.Keys
    requires forall s | s in ids :: truth[s] == truth'[s]
    ensures Comb(f, repairId, ids, truth, i) == Comb(f, repairId, ids, truth', i)
  {
  }

  /** A repair stays right when more sources are committed. */
  lemma RepairOkGrows<E(!new)>(f: Field<E>, truth: Truth<E>, truth': Truth<E>, r: Repair<E>)
    requires RepairOk(f, truth, r)
    requires truth.Keys <= truth'.Keys && forall s | s in truth :: truth'[s] == truth[s]
    ensures RepairOk(f, truth', r)
  {
    forall i: nat
      ensures f.At(r.size + r.symbol, i) == Comb(f, r.id, r.ids, truth', i)
    {
      CombSame(f, r.id, r.ids, truth, truth', i);
    }
  }

  /** Two vectors of the same length with the same elements are equal. */
  lemma SameVector<E(!new)>(f: Field<E>, u: seq<E>, v: seq<E>)
    requires |u| == |v| && forall i: nat :: f.At(u, i) == f.At(v, i)
    ensures u == v
  {
    forall i | 0 <= i < |u|
      ensures u[i] == v[i]
    {
      assert f.At(u, i) == f.At(v, i);
    }
  }

  /** A right repair is determined by its identifier, the sources it lists and the length of its symbol. */
  lemma RightRepairIsUnique<E(!new)>(f: Field<E>, truth: Truth<E>, r: Repair<E>, t: Repair<E>)
    requires RepairOk(f, truth, r) && RepairOk(f, truth, t)
    requires r.id == t.id && r.ids == t.ids && |r.symbol| == |t.symbol|
    ensures r == t
  {
    var u, v := r.size + r.symbol, t.size + t.symbol;
    forall i: nat
      ensures f.At(u, i) == f.At(v, i)
    {
      assert f.At(u, i) == Comb(f, r.id, r.ids, truth, i);
    }
    SameVector(f, u, v);
    assert u[..f.sizeLen] == r.size && v[..f.sizeLen] == t.size;
    assert u[f.sizeLen..] == r.symbol && v[f.sizeLen..] == t.symbol;
  }

  // ----- removing a source from a repair

  /** `remove_source_data_from_repair`: the source's part is taken out of the size and the symbol; its
      identifier stays listed. */
  function StripData<E(!new)>(f: Field<E>, r: Repair<E>, src: Source<E>): Repair<E> {
    var c := f.Coefficient(r.id, src.id);
    r.(size := f.AddScaled(r.size, c, f.enc(|src.data|)), symbol := f.AddScaled(r.symbol, c, src.data))
  }

  /** `remove_source_from_repair` */
  function Strip<E(!new)>(f: Field<E>, r: Repair<E>, src: Source<E>): Repair<E> {
    StripData(f, r, src).(ids := r.ids - {src.id})
  }

  lemma AtConcat<E(!new)>(f: Field<E>, u: seq<E>, v: seq<E>, i: nat)
    ensures f.At(u + v, i) == if i < |u| then u[i] else f.At(v, i - |u|)
  {
  }

  /** Adding a scaled source to size and symbol is adding its scaled word. */
  lemma WordAddScaled<E(!new)>(f: Field<E>, size: seq<E>, symbol: seq<E>, c: E, d: seq<E>, i: nat)
    requires f.Laws() && |d| <= f.maxSize && |size| == f.sizeLen && |d| <= |symbol|
    ensures f.At(f.AddScaled(size, c, f.enc(|d|)) + f.AddScaled(symbol, c, d), i)
         == f.add(f.At(size + symbol, i), f.mul(c, f.At(Word(f, d), i)))
  {
    f.NatLaw(|d|);
    AtConcat(f, f.AddScaled(size, c, f.enc(|d|)), f.AddScaled(symbol, c, d), i);
    AtConcat(f, size, symbol, i);
    AtConcat(f, f.enc(|d|), d, i);
    if i >= f.sizeLen {
      f.AtAddScaled(symbol, c, d, i - f.sizeLen);
    }
  }

  /** Stripping a true source from a right repair leaves a right repair. */
  lemma StripOk<E(!new)>(f: Field<E>, truth: Truth<E>, r: Repair<E>, src: Source<E>)
    requires f.Laws() && TruthOk(f, truth) && RepairOk(f, truth, r)
    requires src.id in r.ids && truth[src.id] == src.data
    ensures RepairOk(f, truth, Strip(f, r, src))
  {
    var c := f.Coefficient(r.id, src.id);
    var t := Strip(f, r, src);
    forall i: nat
      ensures f.At(t.size + t.symbol, i) == Comb(f, t.id, t.ids, truth, i)
    {
      WordAddScaled(f, r.size, r.symbol, c, src.data, i);
      CombRemove(f, r.id, r.ids, truth, i, src.id);
      f.AddCancels(Comb(f, r.id, t.ids, truth, i), Term(f, r.id, src.id, truth, i));
    }
  }

  /** What is left is the only right repair of the others with a symbol of that length. */
  lemma StripExactly<E(!new)>(f: Field<E>, truth: Truth<E>, r: Repair<E>, src: Source<E>, t: Repair<E>)
    requires f.Laws() && TruthOk(f, truth) && RepairOk(f, truth, r)
    requires src.id in r.ids && truth[src.id] == src.data
    ensures t == Strip(f, r, src)
       <==> t.id == r.id && t.ids == r.ids - {src.id} && |t.symbol| == |r.symbol| && RepairOk(f, truth, t)
  {
    StripOk(f, truth, r, src);
    hide RepairOk;
    if t.id == r.id && t.ids == r.ids - {src.id} && |t.symbol| == |r.symbol| && RepairOk(f, truth, t) {
      RightRepairIsUnique(f, truth, t, Strip(f, r, src));
    }
  }

  // ----- rebuilding the last source of a repair

  /** `create_source_from_repair`: multiply by the inverse of the coefficient. */
  function Create<E(!new)>(f: Field<E>, r: Repair<E>): Source<E>
    requires r.ids != {}
  {
    var s := Min(r.ids);
    var c := f.inv(f.Coefficient(r.id, s));
    var n := f.dec(f.Scale(c, r.size));
    Source(s, seq(n, i requires 0 <= i < n => f.mul(c, f.At(r.symbol, i))))
  }

  lemma CreateId<E(!new)>(f: Field<E>, r: Repair<E>, s: nat)
    requires r.ids == {s}
    ensures Create(f, r).id == s
  {
  }

  /** A right repair of one source gives back the size and the data that were committed. */
  lemma CreateOk<E(!new)>(f: Field<E>, truth: Truth<E>, r: Repair<E>, s: nat)
    requires f.Laws() && TruthOk(f, truth) && RepairOk(f, truth, r) && r.ids == {s}
    ensures Create(f, r) == Source(s, truth[s])
  {
    var d := truth[s];
    var k := f.Coefficient(r.id, s);
    var c := f.inv(k);
    f.CoefficientNonZero(r.id, s);
    f.NatLaw(|d|);
    forall i: nat
      ensures f.mul(c, f.At(r.size + r.symbol, i)) == f.At(Word(f, d), i)
    {
      var w := f.At(Word(f, d), i);
      CombRemove(f, r.id, r.ids, truth, i, s);
      assert r.ids - {s} == {};
      assert Comb(f, r.id, r.ids - {s}, truth, i) == f.zero;
      assert Term(f, r.id, s, truth, i) == f.mul(k, w);
      assert f.At(r.size + r.symbol, i) == Comb(f, r.id, r.ids, truth, i);
      f.AddZero(f.mul(k, w));
      assert f.At(r.size + r.symbol, i) == f.mul(k, w);
      f.AddZero(f.mul(k, w));
      f.MulInv(k, w);
    }
    forall i | 0 <= i < f.sizeLen
      ensures f.Scale(c, r.size)[i] == f.enc(|d|)[i]
    {
      assert f.mul(c, f.At(r.size + r.symbol, i)) == f.At(Word(f, d), i);
    }
    assert f.Scale(c, r.size) == f.enc(|d|);
    forall i: nat | i < |d|
      ensures f.mul(c, f.At(r.symbol, i)) == d[i]
    {
      AtConcat(f, r.size, r.symbol, i + f.sizeLen);
      assert f.mul(c, f.At(r.size + r.symbol, i + f.sizeLen)) == f.At(Word(f, d), i + f.sizeLen);
    }
    assert Create(f, r).data == d;
  }
}
