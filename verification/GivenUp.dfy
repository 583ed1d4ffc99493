/** What is lost with the repair that full decoding gives up: nothing exactly when its equation follows from those that
    are kept, which is so whenever those are independent. */
module GivenUp {
  import opened GaloisField
  import opened LinearAlgebra
  import opened Dependence
  import opened Ids
  import opened Symbols
  import opened DecoderModel
  import opened Peeling
  import opened DecoderInvariant
  import opened DecoderSteps
  import opened FullDecoding

  /** The equations of a repair hold, at every position. */
  ghost predicate Satisfies<E(!new)>(f: Field<E>, truth: Truth<E>, r: Repair<E>) {
    && r.ids <= truth.Keys
    && forall i: nat :: f.At(r.size + r.symbol, i) == Comb(f, r.id, r.ids, truth, i)
  }

  /** Other data for the missing sources, such that every repair but the last one stays right. */
  ghost predicate Alternative<E(!new)>(f: Field<E>, truth: Truth<E>, d: State<E>, truth': Truth<E>)
    requires |d.repairs.Keys| > 0
  {
    && TruthOk(f, truth') && truth'.Keys == truth.Keys
    && (forall s | s in truth && s !in d.missing :: truth'[s] == truth[s])
    && (forall k | k in d.repairs && k != Max(d.repairs.Keys) :: Satisfies(f, truth', d.repairs[k]))
  }

  /** The coefficients of the last repair are a combination of those of the others. */
  ghost predicate Redundant<E(!new)>(f: Field<E>, d: State<E>)
    requires |d.repairs.Keys| > 0
  {
    CoefficientsWidth(f, d);
    var a := Coefficients(f, d);
    Combines(f, a[..|a| - 1], a[|a| - 1])
  }

  /** The coefficients of the repairs are independent. */
  ghost predicate Independent<E(!new)>(f: Field<E>, d: State<E>) {
    CoefficientsWidth(f, d);
    !Dependent(f, Coefficients(f, d), |d.missing.Keys|)
  }

  lemma CoefficientsWidth<E(!new)>(f: Field<E>, d: State<E>)
    ensures var a := Coefficients(f, d); |a| == |d.repairs.Keys| && Width(a, |d.missing.Keys|)
  {
    hide Entry;
  }

  // ----- the equations, as rows

  lemma ListIs<E>(d: State<E>)
    ensures var ks, rs := Sorted(d.repairs.Keys), RepairList(d);
            && |rs| == |ks| == |d.repairs.Keys|
            && forall j | 0 <= j < |ks| :: ks[j] in d.repairs && rs[j] == d.repairs[ks[j]]
  {
    var ks := Sorted(d.repairs.Keys);
    forall j | 0 <= j < |ks|
      ensures ks[j] in d.repairs
    {
      assert ks[j] in ks;
    }
  }

  ghost predicate Lists<R(!new)>(m: map<nat, R>, rs: seq<R>, last: nat) {
    && (forall j | 0 <= j < |rs| :: exists k :: k in m && k != last && rs[j] == m[k])
    && (forall k | k in m && k != last :: m[k] in rs)
  }

  lemma KeysList<R(!new)>(m: map<nat, R>, ks: seq<nat>, rs: seq<R>)
    requires |ks| == |rs| > 0 && Increasing(ks) && forall k :: k in ks <==> k in m
    requires forall j | 0 <= j < |ks| :: ks[j] in m && rs[j] == m[ks[j]]
    ensures Lists(m, rs[..|rs| - 1], ks[|ks| - 1])
  {
    var n := |rs| - 1;
    forall j | 0 <= j < n
      ensures exists k :: k in m && k != ks[n] && rs[..n][j] == m[k]
    {
      assert ks[j] in m && ks[j] != ks[n];
    }
    forall k | k in m && k != ks[n]
      ensures m[k] in rs[..n]
    {
      var j :| 0 <= j < |ks| && ks[j] == k;
      assert rs[..n][j] == m[k];
    }
  }

  /** The list ends with the repair that is given up, and the others are those that are kept. */
  lemma LastInList<E(!new)>(d: State<E>)
    requires |d.repairs.Keys| > 0
    ensures var rs, last := RepairList(d), Max(d.repairs.Keys);
            |rs| > 0 && rs[|rs| - 1] == d.repairs[last] && Lists(d.repairs, rs[..|rs| - 1], last)
  {
    hide *;
    LastIsMax(d.repairs.Keys);
    ListIs(d);
    KeysList(d.repairs, Sorted(d.repairs.Keys), RepairList(d));
  }

  /** The repair is right at a position exactly when its row sends the unknowns to what it holds there. */
  lemma RowHolds<E(!new)>(f: Field<E>, truth: Truth<E>, r: Repair<E>, ms: seq<nat>, i: nat)
    requires f.Laws() && Increasing(ms) && r.ids <= truth.Keys
    requires (forall k | 0 <= k < |ms| :: ms[k] in truth) && forall s | s in r.ids :: s in ms
    ensures Dot(f, Entries(f, r.id, r.ids, ms), Unknowns(f, truth, ms, i)) == Comb(f, r.id, r.ids, truth, i)
  {
    RowSum(f, truth, r.id, r.ids, ms, i);
  }

  ghost predicate Shaped<E>(truth: Truth<E>, rs: seq<Repair<E>>, ms: seq<nat>) {
    && Increasing(ms)
    && (forall k | 0 <= k < |ms| :: ms[k] in truth)
    && (forall j | 0 <= j < |rs| :: rs[j].ids <= truth.Keys && forall s | s in rs[j].ids :: s in ms)
  }

  /** If the last row is a combination of the others, its equations follow from theirs. */
  lemma Follows<E(!new)>(f: Field<E>, truth: Truth<E>, truth': Truth<E>, rs: seq<Repair<E>>, ms: seq<nat>)
    requires f.Laws() && rs != [] && Shaped(truth, rs, ms) && truth'.Keys == truth.Keys
    requires var a := CoefficientsOf(f, rs, ms); Width(a, |ms|) && Combines(f, a[..|a| - 1], a[|a| - 1])
    requires forall j | 0 <= j < |rs| :: Satisfies(f, truth, rs[j])
    requires forall j | 0 <= j < |rs| - 1 :: Satisfies(f, truth', rs[j])
    ensures Satisfies(f, truth', rs[|rs| - 1])
  {
    var a, m := CoefficientsOf(f, rs, ms), |rs| - 1;
    var w: seq<E> :| |w| == m && RowTimes(f, w, a[..m], |ms|) == a[m];
    forall i: nat
      ensures f.At(rs[m].size + rs[m].symbol, i) == Comb(f, rs[m].id, rs[m].ids, truth', i)
    {
      var x, x' := Unknowns(f, truth, ms, i), Unknowns(f, truth', ms, i);
      forall j | 0 <= j < m
        ensures Dot(f, a[j], x) == Dot(f, a[j], x')
      {
        RowHolds(f, truth, rs[j], ms, i);
        RowHolds(f, truth', rs[j], ms, i);
        assert Satisfies(f, truth, rs[j]) && Satisfies(f, truth', rs[j]);
      }
      assert Apply(f, a[..m], x) == Apply(f, a[..m], x');
      DotAssociates(f, w, a[..m], x);
      DotAssociates(f, w, a[..m], x');
      RowHolds(f, truth, rs[m], ms, i);
      RowHolds(f, truth', rs[m], ms, i);
      assert Satisfies(f, truth, rs[m]);
    }
  }

  // ----- other data that the other equations allow

  /** The first element of each missing source, changed by the entry of `v` that belongs to it. */
  ghost function Changed<E(!new)>(f: Field<E>, ms: seq<nat>, v: seq<E>, s: nat, data: seq<E>): (r: seq<E>)
    requires |v| == |ms| && data != []
    ensures |r| == |data|
  {
    if k :| 0 <= k < |ms| && ms[k] == s then data[0 := f.add(data[0], v[k])] else data
  }

  ghost function AllChanged<E(!new)>(f: Field<E>, truth: Truth<E>, ms: seq<nat>, v: seq<E>): Truth<E>
    requires |v| == |ms| && TruthOk(f, truth)
  {
    map s | s in truth :: Changed(f, ms, v, s, truth[s])
  }

  lemma ChangedUnknowns<E(!new)>(f: Field<E>, truth: Truth<E>, ms: seq<nat>, v: seq<E>, i: nat)
    requires f.Laws() && TruthOk(f, truth) && Increasing(ms) && |v| == |ms|
    requires forall k | 0 <= k < |ms| :: ms[k] in truth
    ensures var x := Unknowns(f, truth, ms, i);
            Unknowns(f, AllChanged(f, truth, ms, v), ms, i)
            == if i == f.sizeLen then f.AddScaled(x, f.one, v) else x
  {
    var x, x' := Unknowns(f, truth, ms, i), Unknowns(f, AllChanged(f, truth, ms, v), ms, i);
    var y := if i == f.sizeLen then f.AddScaled(x, f.one, v) else x;
    forall k | 0 <= k < |ms|
      ensures x'[k] == y[k]
    {
      var data := truth[ms[k]];
      var j :| 0 <= j < |ms| && ms[j] == ms[k] && Changed(f, ms, v, ms[k], data) == data[0 := f.add(data[0], v[j])];
      assert j == k;
      var data' := data[0 := f.add(data[0], v[k])];
      f.NatLaw(|data|);
      AtConcat(f, f.enc(|data|), data, i);
      AtConcat(f, f.enc(|data|), data', i);
      f.Law(v[k], v[k], v[k]);
    }
    assert x' == y;
  }

  /** A vector that the other rows send to zero changes no other equation, and the last one if its row does not. */
  lemma ChangedSatisfies<E(!new)>(f: Field<E>, truth: Truth<E>, r: Repair<E>, ms: seq<nat>, v: seq<E>)
    requires f.Laws() && TruthOk(f, truth) && |v| == |ms| && Shaped(truth, [r], ms) && Satisfies(f, truth, r)
    ensures var row := Entries(f, r.id, r.ids, ms);
            Satisfies(f, AllChanged(f, truth, ms, v), r) <==> Dot(f, row, v) == f.zero
  {
    var row, truth' := Entries(f, r.id, r.ids, ms), AllChanged(f, truth, ms, v);
    assert [r][0] == r;
    forall i: nat
      ensures Comb(f, r.id, r.ids, truth', i)
           == if i == f.sizeLen then f.add(Comb(f, r.id, r.ids, truth, i), Dot(f, row, v))
              else Comb(f, r.id, r.ids, truth, i)
    {
      RowHolds(f, truth, r, ms, i);
      RowHolds(f, truth', r, ms, i);
      ChangedUnknowns(f, truth, ms, v, i);
      if i == f.sizeLen {
        SumDot(f, row, Unknowns(f, truth, ms, i), v);
      }
    }
    var c, e := Comb(f, r.id, r.ids, truth, f.sizeLen), Dot(f, row, v);
    f.AddZero(c);
    f.AddCancels(e, c);
    f.Law(c, c, c);
  }

  lemma SumDot<E(!new)>(f: Field<E>, u: seq<E>, x: seq<E>, v: seq<E>)
    requires f.Laws() && |u| == |x| == |v|
    ensures Dot(f, u, f.AddScaled(x, f.one, v)) == f.add(Dot(f, u, x), Dot(f, u, v))
  {
    DotSymmetric(f, u, f.AddScaled(x, f.one, v));
    DotSymmetric(f, u, x);
    DotSymmetric(f, u, v);
    DotAddScaled(f, x, f.one, v, u);
    f.Law(Dot(f, v, u), Dot(f, v, u), Dot(f, v, u));
  }

  // ----- the repair that is given up

  lemma OkSatisfies<E(!new)>(f: Field<E>, truth: Truth<E>, r: Repair<E>)
    requires RepairOk(f, truth, r)
    ensures Satisfies(f, truth, r) && r.ids <= truth.Keys
  {
  }

  lemma SystemShaped<E(!new)>(f: Field<E>, truth: Truth<E>, rs: seq<Repair<E>>, ms: seq<nat>)
    requires System(f, truth, rs, ms)
    ensures Shaped(truth, rs, ms) && forall j | 0 <= j < |rs| :: Satisfies(f, truth, rs[j])
  {
    hide RepairOk, Satisfies;
    forall j | 0 <= j < |rs|
      ensures Satisfies(f, truth, rs[j]) && rs[j].ids <= truth.Keys
    {
      OkSatisfies(f, truth, rs[j]);
    }
  }

  lemma HeldShape<E(!new)>(f: Field<E>, truth: Truth<E>, d: State<E>)
    requires f.Laws() && Links(d) && RepairsRight(f, truth, d) && d.missing.Keys <= truth.Keys
    ensures var rs := RepairList(d);
            Shaped(truth, rs, Sorted(d.missing.Keys)) && forall j | 0 <= j < |rs| :: Satisfies(f, truth, rs[j])
  {
    hide *;
    HeldSystem(f, truth, d);
    SystemShaped(f, truth, RepairList(d), Sorted(d.missing.Keys));
  }

  lemma AlternativesSatisfy<E(!new)>(f: Field<E>, truth: Truth<E>, d: State<E>, truth': Truth<E>)
    requires |d.repairs.Keys| > 0 && Alternative(f, truth, d, truth')
    ensures var rs := RepairList(d); forall j | 0 <= j < |rs| - 1 :: Satisfies(f, truth', rs[j])
  {
    hide Satisfies, RepairList;
    LastInList(d);
    var rs := RepairList(d);
    assert forall j | 0 <= j < |rs| - 1 :: rs[..|rs| - 1][j] == rs[j];
  }

  /** If the last row is not a combination of the others, some vector is sent to zero by them and not by it. */
  lemma Separates<E(!new)>(f: Field<E>, d: State<E>) returns (v: seq<E>)
    requires f.Laws() && |d.repairs.Keys| > 0 && !Redundant(f, d)
    ensures var a := Coefficients(f, d);
            && |v| == |d.missing.Keys| && |a| == |d.repairs.Keys| && Width(a, |v|)
            && forall j | 0 <= j < |a| :: Dot(f, a[j], v) == f.zero <==> j < |a| - 1
  {
    CoefficientsWidth(f, d);
    hide Coefficients;
    var a, m := Coefficients(f, d), |d.repairs.Keys| - 1;
    CombinesExactly(f, a[..m], a[m]);
    v :| |v| == |a[m]| && InKernel(f, a[..m], v) && Dot(f, a[m], v) != f.zero;
    assert forall j | 0 <= j < m :: a[..m][j] == a[j];
  }

  /** The sources changed by that vector satisfy the other repairs, and not the last one. */
  lemma ChangedTells<E(!new)>(f: Field<E>, truth: Truth<E>, rs: seq<Repair<E>>, ms: seq<nat>, v: seq<E>)
    requires f.Laws() && TruthOk(f, truth) && |v| == |ms| && Shaped(truth, rs, ms)
    requires forall j | 0 <= j < |rs| :: Satisfies(f, truth, rs[j])
    requires Width(CoefficientsOf(f, rs, ms), |v|)
    requires forall j | 0 <= j < |rs| :: Dot(f, CoefficientsOf(f, rs, ms)[j], v) == f.zero <==> j < |rs| - 1
    ensures forall j | 0 <= j < |rs| :: Satisfies(f, AllChanged(f, truth, ms, v), rs[j]) <==> j < |rs| - 1
  {
    hide Satisfies, Shaped, TruthOk;
    forall j | 0 <= j < |rs|
      ensures Satisfies(f, AllChanged(f, truth, ms, v), rs[j]) <==> j < |rs| - 1
    {
      OneShaped(truth, rs, ms, j);
      ChangedSatisfies(f, truth, rs[j], ms, v);
      assert CoefficientsOf(f, rs, ms)[j] == Entries(f, rs[j].id, rs[j].ids, ms);
    }
  }

  lemma KeptSatisfy<E(!new)>(f: Field<E>, d: State<E>, truth': Truth<E>)
    requires |d.repairs.Keys| > 0
    requires forall j | 0 <= j < |RepairList(d)| - 1 :: Satisfies(f, truth', RepairList(d)[j])
    ensures forall k | k in d.repairs && k != Max(d.repairs.Keys) :: Satisfies(f, truth', d.repairs[k])
  {
    hide RepairList, Satisfies;
    LastInList(d);
  }

  /** What tells the sources apart only through the given-up repair. */
  lemma Ambiguous<E(!new)>(f: Field<E>, truth: Truth<E>, d: State<E>) returns (truth': Truth<E>)
    requires f.Laws() && TruthOk(f, truth) && Links(d) && RepairsRight(f, truth, d) && d.missing.Keys <= truth.Keys
    requires |d.repairs.Keys| > 0 && !Redundant(f, d)
    ensures Alternative(f, truth, d, truth') && !Satisfies(f, truth', d.repairs[Max(d.repairs.Keys)])
  {
    hide *;
    var v := Separates(f, d);
    HeldShape(f, truth, d);
    CoefficientsAre(f, d);
    ChangedTells(f, truth, RepairList(d), Sorted(d.missing.Keys), v);
    ChangedIsTruth(f, truth, d, v);
    truth' := AllChanged(f, truth, Sorted(d.missing.Keys), v);
    KeptSatisfy(f, d, truth');
    LastInList(d);
    AlternativeIs(f, truth, d, truth');
  }

  lemma CoefficientsAre<E(!new)>(f: Field<E>, d: State<E>)
    ensures Coefficients(f, d) == CoefficientsOf(f, RepairList(d), Sorted(d.missing.Keys))
    ensures |RepairList(d)| == |Coefficients(f, d)| == |d.repairs.Keys|
  {
  }

  lemma AlternativeIs<E(!new)>(f: Field<E>, truth: Truth<E>, d: State<E>, truth': Truth<E>)
    requires |d.repairs.Keys| > 0 && TruthOk(f, truth') && truth'.Keys == truth.Keys
    requires forall s | s in truth && s !in d.missing :: truth'[s] == truth[s]
    requires forall k | k in d.repairs && k != Max(d.repairs.Keys) :: Satisfies(f, truth', d.repairs[k])
    ensures Alternative(f, truth, d, truth')
  {
  }

  lemma OneShaped<E>(truth: Truth<E>, rs: seq<Repair<E>>, ms: seq<nat>, j: nat)
    requires Shaped(truth, rs, ms) && j < |rs|
    ensures Shaped(truth, [rs[j]], ms)
  {
  }

  lemma ChangedIsTruth<E(!new)>(f: Field<E>, truth: Truth<E>, d: State<E>, v: seq<E>)
    requires TruthOk(f, truth) && |v| == |d.missing.Keys|
    ensures var truth' := AllChanged(f, truth, Sorted(d.missing.Keys), v);
            && TruthOk(f, truth') && truth'.Keys == truth.Keys
            && (forall s | s in truth && s !in d.missing :: truth'[s] == truth[s])
  {
    hide *;
    var ms := Sorted(d.missing.Keys);
    SizesStay(f, truth, ms, v);
    forall s | s in truth && s !in d.missing
      ensures AllChanged(f, truth, ms, v)[s] == truth[s]
    {
      assert s !in d.missing.Keys && s !in ms;
      OthersStay(f, truth, ms, v, s);
    }
  }

  lemma SizesStay<E(!new)>(f: Field<E>, truth: Truth<E>, ms: seq<nat>, v: seq<E>)
    requires TruthOk(f, truth) && |v| == |ms|
    ensures TruthOk(f, AllChanged(f, truth, ms, v)) && AllChanged(f, truth, ms, v).Keys == truth.Keys
  {
    hide Changed;
  }

  lemma OthersStay<E(!new)>(f: Field<E>, truth: Truth<E>, ms: seq<nat>, v: seq<E>, s: nat)
    requires TruthOk(f, truth) && |v| == |ms| && s in truth && s !in ms
    ensures s in AllChanged(f, truth, ms, v) && AllChanged(f, truth, ms, v)[s] == truth[s]
  {
  }

  /** Giving up the last repair loses nothing, in the sense that whatever data the missing sources may have, the repairs
      that are kept imply the one that is not, exactly when its row is a combination of theirs. */
  lemma GivenUpExactly<E(!new)>(f: Field<E>, truth: Truth<E>, d: State<E>)
    requires f.Laws() && TruthOk(f, truth) && Links(d) && RepairsRight(f, truth, d) && d.missing.Keys <= truth.Keys
    requires |d.repairs.Keys| > 0
    ensures (forall truth': Truth<E> | Alternative(f, truth, d, truth') ::
               Satisfies(f, truth', d.repairs[Max(d.repairs.Keys)]))
       <==> Redundant(f, d)
  {
    if Redundant(f, d) {
      HeldShape(f, truth, d);
      CoefficientsWidth(f, d);
      LastInList(d);
      forall truth': Truth<E> | Alternative(f, truth, d, truth')
        ensures Satisfies(f, truth', d.repairs[Max(d.repairs.Keys)])
      {
        AlternativesSatisfy(f, truth, d, truth');
        Follows(f, truth, truth', RepairList(d), Sorted(d.missing.Keys));
      }
    } else {
      var truth' := Ambiguous(f, truth, d);
    }
  }

  // ----- when this happens

  /** The coefficients of source `s` in the repairs. */
  ghost function ColumnAt<E(!new)>(f: Field<E>, rs: seq<Repair<E>>, s: nat): seq<E> {
    seq(|rs|, j requires 0 <= j < |rs| => Entry(f, rs[j].id, rs[j].ids, s))
  }

  /** A combination of rows is zero when it is so in the column of every source. */
  lemma ZeroByColumns<E(!new)>(f: Field<E>, w: seq<E>, rs: seq<Repair<E>>, ms: seq<nat>)
    requires |w| == |rs| && Width(CoefficientsOf(f, rs, ms), |ms|)
    ensures RowTimes(f, w, CoefficientsOf(f, rs, ms), |ms|) == f.Zeros(|ms|)
       <==> forall s | s in ms :: Dot(f, w, ColumnAt(f, rs, s)) == f.zero
  {
    var a := CoefficientsOf(f, rs, ms);
    var u := RowTimes(f, w, a, |ms|);
    forall k | 0 <= k < |ms|
      ensures u[k] == Dot(f, w, ColumnAt(f, rs, ms[k]))
    {
      assert Col(a, k) == ColumnAt(f, rs, ms[k]);
    }
    if forall s | s in ms :: Dot(f, w, ColumnAt(f, rs, s)) == f.zero {
      assert u == f.Zeros(|ms|);
    }
    if u == f.Zeros(|ms|) {
      forall s | s in ms
        ensures Dot(f, w, ColumnAt(f, rs, s)) == f.zero
      {
        var k :| 0 <= k < |ms| && ms[k] == s;
        assert u[k] == f.zero;
      }
    }
  }

  lemma WidthOf<E(!new)>(f: Field<E>, rs: seq<Repair<E>>, ms: seq<nat>)
    ensures Width(CoefficientsOf(f, rs, ms), |ms|) && |CoefficientsOf(f, rs, ms)| == |rs|
  {
    hide Entry;
  }

  ghost predicate OnlyLists<E>(rs: seq<Repair<E>>, ms: seq<nat>) {
    forall j, s | 0 <= j < |rs| && s in rs[j].ids :: s in ms
  }

  lemma ZeroElsewhere<E(!new)>(f: Field<E>, w: seq<E>, rs: seq<Repair<E>>, ms: seq<nat>, s: nat)
    requires f.Laws() && |w| == |rs| && OnlyLists(rs, ms) && s !in ms
    ensures Dot(f, w, ColumnAt(f, rs, s)) == f.zero
  {
    DotVanishes(f, w, ColumnAt(f, rs, s));
  }

  /** Columns of sources that no repair lists do not matter. */
  lemma DependentWider<E(!new)>(f: Field<E>, rs: seq<Repair<E>>, ms: seq<nat>, wider: seq<nat>)
    requires f.Laws() && OnlyLists(rs, ms) && forall s | s in ms :: s in wider
    requires Width(CoefficientsOf(f, rs, ms), |ms|) && Width(CoefficientsOf(f, rs, wider), |wider|)
    ensures Dependent(f, CoefficientsOf(f, rs, ms), |ms|) <==> Dependent(f, CoefficientsOf(f, rs, wider), |wider|)
  {
    WidthOf(f, rs, ms);
    WidthOf(f, rs, wider);
    hide CoefficientsOf, RowTimes, OnlyLists, NonZero;
    forall w: seq<E> | |w| == |rs|
      ensures RowTimes(f, w, CoefficientsOf(f, rs, ms), |ms|) == f.Zeros(|ms|)
         <==> RowTimes(f, w, CoefficientsOf(f, rs, wider), |wider|) == f.Zeros(|wider|)
    {
      ZeroByColumns(f, w, rs, ms);
      ZeroByColumns(f, w, rs, wider);
      forall s | s in wider && s !in ms
        ensures Dot(f, w, ColumnAt(f, rs, s)) == f.zero
      {
        ZeroElsewhere(f, w, rs, ms, s);
      }
    }
  }

  lemma LinkedRepairs<E>(c: State<E>, s: Repair<E>)
    ensures var e := Link(c, s);
            && e.repairs == c.repairs[s.id := s] && e.repairs.Keys == c.repairs.Keys + {s.id}
            && e.missing.Keys == c.missing.Keys + s.ids
            && e == c.(repairs := e.repairs, missing := e.missing)
    ensures s.id !in c.repairs ==> |Link(c, s).repairs.Keys| == |c.repairs.Keys| + 1
    ensures |Link(c, s).repairs.Keys| > 0
  {
    assert Link(c, s).repairs.Keys == c.repairs.Keys + {s.id};
  }

  lemma ListOfLinked<E>(c: State<E>, s: Repair<E>)
    requires forall k | k in c.repairs :: k < s.id
    ensures |Link(c, s).repairs.Keys| > 0
    ensures RepairList(Link(c, s)) == RepairList(c) + [s] && Max(Link(c, s).repairs.Keys) == s.id
  {
    hide *;
    var e := Link(c, s);
    LinkedRepairs(c, s);
    LargestIs(c.repairs.Keys, s.id);
    SortedWithLargest(c.repairs.Keys, s.id);
    ListIs(c);
    ListIs(e);
    ListGrows(c.repairs, Sorted(c.repairs.Keys), RepairList(c), s, s.id, RepairList(e));
  }

  lemma LargestIs(s: set<nat>, x: nat)
    requires forall y | y in s :: y < x
    ensures Max(s + {x}) == x
  {
    assert x in s + {x};
  }

  lemma ListGrows<R>(m: map<nat, R>, ks: seq<nat>, rs: seq<R>, r: R, x: nat, longer: seq<R>)
    requires |rs| == |ks| && x !in m && forall j | 0 <= j < |ks| :: ks[j] in m && rs[j] == m[ks[j]]
    requires |longer| == |ks| + 1 && forall j | 0 <= j < |longer| ::
               (ks + [x])[j] in m[x := r] && longer[j] == m[x := r][(ks + [x])[j]]
    ensures longer == rs + [r]
  {
    forall j | 0 <= j < |longer|
      ensures longer[j] == (rs + [r])[j]
    {
      assert j < |ks| ==> (ks + [x])[j] == ks[j] && ks[j] != x;
    }
  }

  lemma HeldOnlyMissing<E>(c: State<E>)
    requires Links(c)
    ensures OnlyLists(RepairList(c), Sorted(c.missing.Keys))
  {
    hide RepairList, Sorted, Links;
    forall j, s | 0 <= j < |RepairList(c)| && s in RepairList(c)[j].ids
      ensures s in Sorted(c.missing.Keys)
    {
      var k := HeldAt(c, j);
      EncodesMissing(c, k);
    }
  }

  lemma LinkedSquare<E(!new)>(f: Field<E>, c: State<E>, s: Repair<E>)
    requires s.id !in c.repairs && |c.repairs.Keys| + 1 == |c.missing.Keys + s.ids|
    ensures var a := Coefficients(f, Link(c, s)); a != [] && IsSquare(a, |a|) && |a| == |Link(c, s).missing.Keys|
  {
    hide Coefficients, Link;
    LinkedRepairs(c, s);
    CoefficientsWidth(f, Link(c, s));
  }

  /** Full decoding fails on a repair with the largest identifier exactly when the repairs held before are dependent, or
      the new one is a combination of them. */
  lemma FailsExactly<E(!new)>(f: Field<E>, c: State<E>, s: Repair<E>)
    requires f.Laws() && Links(c) && (forall k | k in c.repairs :: k < s.id)
    requires |c.repairs.Keys| + 1 == |c.missing.Keys + s.ids|
    ensures |Link(c, s).repairs.Keys| > 0
    ensures Singular(f, Coefficients(f, Link(c, s))) <==> !Independent(f, c) || Redundant(f, Link(c, s))
  {
    var e := Link(c, s);
    var rs, ms, wider := RepairList(c), Sorted(c.missing.Keys), Sorted(e.missing.Keys);
    LinkedRepairs(c, s);
    ListOfLinked(c, s);
    HeldOnlyMissing(c);
    LinkedSquare(f, c, s);
    CoefficientsAre(f, c);
    CoefficientsAre(f, e);
    WidthOf(f, rs, ms);
    WidthOf(f, rs, wider);
    CoefficientsOfMore(f, rs, s, wider);
    CoefficientsWidth(f, e);
    hide Link, RepairList, Sorted, Singular, CoefficientsOf, Coefficients, Dependent, Combines, Links, OnlyLists;
    assert forall m | m in ms :: m in wider;
    DependentWider(f, rs, ms, wider);
    SingularByLastRow(f, Coefficients(f, e));
  }

  lemma CoefficientsOfMore<E(!new)>(f: Field<E>, rs: seq<Repair<E>>, s: Repair<E>, ms: seq<nat>)
    ensures CoefficientsOf(f, rs + [s], ms) == CoefficientsOf(f, rs, ms) + [Entries(f, s.id, s.ids, ms)]
    ensures var a := CoefficientsOf(f, rs + [s], ms);
            |a| == |rs| + 1 && a[..|a| - 1] == CoefficientsOf(f, rs, ms)
  {
  }

  lemma GivenUpRepairs<E>(c: State<E>, s: Repair<E>, e: State<E>)
    requires s.id !in c.repairs && |e.repairs.Keys| > 0 && Max(e.repairs.Keys) == s.id
    requires e.repairs == c.repairs[s.id := s] && e == c.(repairs := e.repairs, missing := e.missing)
    ensures GiveUp(e) == c.(missing := GiveUp(e).missing, failed := c.failed + 1)
    ensures GiveUp(e).missing.Keys == e.missing.Keys
    ensures forall m | m in e.missing :: GiveUp(e).missing[m] == e.missing[m] - {s.id}
  {
    assert GiveUp(e).repairs == c.repairs;
  }

  lemma LinksWithout<E>(c: State<E>, s: Repair<E>)
    requires Links(c) && s.id !in c.repairs
    ensures forall m | m in c.missing :: Link(c, s).missing[m] - {s.id} == c.missing[m]
  {
    forall m | m in c.missing
      ensures s.id !in c.missing[m]
    {
    }
  }

  /** Then the decoder is as it was, but for the newly missing sources and a counter. */
  lemma GivenUpState<E>(c: State<E>, s: Repair<E>)
    requires Links(c) && forall k | k in c.repairs :: k < s.id
    ensures |Link(c, s).repairs.Keys| > 0
    ensures var g := GiveUp(Link(c, s));
            && g == c.(missing := g.missing, failed := c.failed + 1)
            && g.missing.Keys == c.missing.Keys + s.ids
            && (s.ids <= c.missing.Keys ==> g.missing == c.missing)
  {
    hide *;
    LinkedRepairs(c, s);
    ListOfLinked(c, s);
    GivenUpRepairs(c, s, Link(c, s));
    LinksWithout(c, s);
    var g := GiveUp(Link(c, s));
    if s.ids <= c.missing.Keys {
      assert g.missing.Keys == c.missing.Keys;
    }
  }

  lemma FailedCounts<E(!new)>(f: Field<E>, e: State<E>, d': State<E>)
    requires |e.repairs.Keys| == |e.missing.Keys| > 0 && FullStep(f, e, d')
    ensures d'.failed == e.failed + 1 <==> Singular(f, Coefficients(f, e))
    ensures Singular(f, Coefficients(f, e)) ==> d' == GiveUp(e)
  {
    hide Coefficients, Singular, LeftInverse, RebuiltAll, RepairList, Sorted;
  }

  /** Whatever started full decoding, a source or a repair: when the repairs that are kept are independent, the one that
      is given up is a combination of them. */
  lemma KeptIndependent<E(!new)>(f: Field<E>, e: State<E>, d': State<E>)
    requires f.Laws() && |e.repairs.Keys| == |e.missing.Keys| > 0 && FullStep(f, e, d') && d'.failed == e.failed + 1
    requires var a := Coefficients(f, e);
             |a| > 0 && Width(a[..|a| - 1], |a|) && !Dependent(f, a[..|a| - 1], |a|)
    ensures Redundant(f, e)
  {
    FailedCounts(f, e, d');
    CoefficientsWidth(f, e);
    hide Coefficients, Dependent, Combines, Singular, FullStep;
    SingularByLastRow(f, Coefficients(f, e));
  }

  /** A repair of several unknown sources, as many of them missing as repairs held with it: it is given up exactly when
      those held before are dependent or it is a combination of them, and the decoder keeps what it had. */
  lemma ArrivalExactly<E(!new)>(f: Field<E>, c: State<E>, s: Repair<E>, d': State<E>)
    requires f.Laws() && Links(c) && (forall k | k in c.repairs :: k < s.id)
    requires |c.repairs.Keys| + 1 == |c.missing.Keys + s.ids| && FullStep(f, Link(c, s), d')
    ensures |Link(c, s).repairs.Keys| > 0
    ensures d'.failed == c.failed + 1 <==> !Independent(f, c) || Redundant(f, Link(c, s))
    ensures d'.failed == c.failed + 1 ==>
              d' == c.(missing := d'.missing, failed := d'.failed) && d'.missing.Keys == c.missing.Keys + s.ids
    ensures d'.failed == c.failed + 1 && s.ids <= c.missing.Keys ==> d'.missing == c.missing
  {
    hide *;
    FailsExactly(f, c, s);
    GivenUpState(c, s);
    LinkedRepairs(c, s);
    FailedCounts(f, Link(c, s), d');
  }

  lemma LinkedRight<E(!new)>(f: Field<E>, truth: Truth<E>, c: State<E>, s: Repair<E>)
    requires RepairsRight(f, truth, c) && RepairOk(f, truth, s)
    ensures RepairsRight(f, truth, Link(c, s))
  {
    hide RepairOk;
    LinkedRepairs(c, s);
  }

  /** As long as the repairs that the decoder holds are independent, one that is given up follows from them. */
  lemma NothingIsLost<E(!new)>(f: Field<E>, truth: Truth<E>, c: State<E>, s: Repair<E>, d': State<E>,
          truth': Truth<E>)
    requires f.Laws() && TruthOk(f, truth) && Links(c) && RepairsRight(f, truth, c) && c.missing.Keys <= truth.Keys
    requires RepairOk(f, truth, s) && s.ids != {} && s.ids !! c.sources.Keys && forall k | k in c.repairs :: k < s.id
    requires |c.repairs.Keys| + 1 == |c.missing.Keys + s.ids| && FullStep(f, Link(c, s), d')
    requires Independent(f, c) && d'.failed == c.failed + 1
    requires TruthOk(f, truth') && truth'.Keys == truth.Keys
    requires forall x | x in truth && x !in c.missing && x !in s.ids :: truth'[x] == truth[x]
    requires forall k | k in c.repairs :: Satisfies(f, truth', c.repairs[k])
    ensures Satisfies(f, truth', s)
  {
    hide *;
    var e := Link(c, s);
    ArrivalExactly(f, c, s, d');
    LinkedRepairs(c, s);
    ListOfLinked(c, s);
    OkSatisfies(f, truth, s);
    LinkKeepsLinks(c, s);
    LinkedRight(f, truth, c, s);
    forall x | x in truth && x !in e.missing
      ensures truth'[x] == truth[x]
    {
      assert x !in e.missing.Keys;
    }
    AlternativeIs(f, truth, e, truth');
    GivenUpExactly(f, truth, e);
  }
}
