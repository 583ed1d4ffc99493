/** Full decoding rebuilds every missing source exactly: a repair is an equation in the missing sources,
    and the inverse of the coefficients solves the system at every position of the symbols. */
module FullDecoding {
  import opened GaloisField
  import opened LinearAlgebra
  import opened Ids
  import opened Symbols
  import opened DecoderModel
  import opened Peeling
  import opened Delivery
  import opened DecoderInvariant

  /** The missing sources at position `i` of their words. */
  ghost function Unknowns<E(!new)>(f: Field<E>, truth: Truth<E>, ms: seq<nat>, i: nat): seq<E>
    requires forall k | 0 <= k < |ms| :: ms[k] in truth
  {
    seq(|ms|, k requires 0 <= k < |ms| => f.At(Word(f, truth[ms[k]]), i))
  }

  /** A row of the coefficient matrix times the unknowns is the combination the repair stands for. */
  lemma {:induction false} RowSum<E(!new)>(f: Field<E>, truth: Truth<E>, repairId: nat, ids: set<nat>, ms: seq<nat>,
          i: nat)
    requires f.Laws() && Increasing(ms) && ids <= truth.Keys
    requires forall k | 0 <= k < |ms| :: ms[k] in truth
    requires forall s | s in ids :: s in ms
    ensures Dot(f, Entries(f, repairId, ids, ms), Unknowns(f, truth, ms, i)) == Comb(f, repairId, ids, truth, i)
  {
    if ms == [] {
      assert ids == {};
    } else {
      var s, rest := ms[0], ids - {ms[0]};
      RowSum(f, truth, repairId, rest, ms[1..], i);
      TailsOf(f, truth, repairId, ids, ms, i);
      hide Unknowns, Entries;
      if s in ids {
        CombRemove(f, repairId, ids, truth, i, s);
      } else {
        assert rest == ids;
        f.MulZero(f.At(Word(f, truth[s]), i));
        f.AddZero(Comb(f, repairId, ids, truth, i));
      }
    }
  }

  lemma TailsOf<E(!new)>(f: Field<E>, truth: Truth<E>, repairId: nat, ids: set<nat>, ms: seq<nat>, i: nat)
    requires ms != [] && Increasing(ms) && forall k | 0 <= k < |ms| :: ms[k] in truth
    ensures var us, es := Unknowns(f, truth, ms, i), Entries(f, repairId, ids, ms);
            && |us| == |es| == |ms|
            && us[0] == f.At(Word(f, truth[ms[0]]), i) && us[1..] == Unknowns(f, truth, ms[1..], i)
            && es[0] == Entry(f, repairId, ids, ms[0]) && es[1..] == Entries(f, repairId, ids - {ms[0]}, ms[1..])
  {
  }

  /** The repairs at position `i`: sizes first, then symbols, as in a word. */
  ghost function Known<E(!new)>(f: Field<E>, rs: seq<Repair<E>>, i: nat): seq<E> {
    seq(|rs|, j requires 0 <= j < |rs| => f.At(rs[j].size + rs[j].symbol, i))
  }

  /** What full decoding starts from: right repairs that encode missing sources only. */
  ghost predicate System<E(!new)>(f: Field<E>, truth: Truth<E>, rs: seq<Repair<E>>, ms: seq<nat>) {
    && Increasing(ms)
    && (forall k | 0 <= k < |ms| :: ms[k] in truth)
    && (forall j | 0 <= j < |rs| :: RepairOk(f, truth, rs[j]))
    && (forall j, s | 0 <= j < |rs| && s in rs[j].ids :: s in ms)
  }

  lemma SystemHolds<E(!new)>(f: Field<E>, truth: Truth<E>, rs: seq<Repair<E>>, ms: seq<nat>, i: nat)
    requires f.Laws() && System(f, truth, rs, ms)
    ensures Apply(f, CoefficientsOf(f, rs, ms), Unknowns(f, truth, ms, i)) == Known(f, rs, i)
  {
    forall j | 0 <= j < |rs|
      ensures Dot(f, Entries(f, rs[j].id, rs[j].ids, ms), Unknowns(f, truth, ms, i)) == Known(f, rs, i)[j]
    {
      RowSum(f, truth, rs[j].id, rs[j].ids, ms, i);
    }
  }

  /** Row `k` of the inverse picks the `k`-th missing source out of the repairs, at every position. */
  lemma Solution<E(!new)>(f: Field<E>, truth: Truth<E>, rs: seq<Repair<E>>, ms: seq<nat>, l: Matrix<E>, k: nat, i: nat)
    requires f.Laws() && System(f, truth, rs, ms) && |rs| == |ms| && k < |ms|
    requires LeftInverse(f, l, CoefficientsOf(f, rs, ms))
    ensures |l[k]| == |rs|
    ensures Dot(f, l[k], Known(f, rs, i)) == f.At(Word(f, truth[ms[k]]), i)
  {
    SystemHolds(f, truth, rs, ms, i);
    LeftInverseSolves(f, l, CoefficientsOf(f, rs, ms), Unknowns(f, truth, ms, i), k);
  }

  lemma RebuiltSizeOk<E(!new)>(f: Field<E>, truth: Truth<E>, rs: seq<Repair<E>>, ms: seq<nat>, l: Matrix<E>, k: nat)
    requires f.Laws() && TruthOk(f, truth) && System(f, truth, rs, ms) && |rs| == |ms| && k < |ms|
    requires LeftInverse(f, l, CoefficientsOf(f, rs, ms)) && |l[k]| == |rs|
    ensures RebuiltSize(f, l[k], rs) == f.enc(|truth[ms[k]]|)
  {
    f.NatLaw(|truth[ms[k]]|);
    forall i | 0 <= i < f.sizeLen
      ensures Dot(f, l[k], SizesAt(f, rs, i)) == f.enc(|truth[ms[k]]|)[i]
    {
      assert SizesAt(f, rs, i) == Known(f, rs, i);
      Solution(f, truth, rs, ms, l, k, i);
    }
  }

  lemma RebuiltDataOk<E(!new)>(f: Field<E>, truth: Truth<E>, rs: seq<Repair<E>>, ms: seq<nat>, l: Matrix<E>, k: nat,
          i: nat)
    requires f.Laws() && TruthOk(f, truth) && System(f, truth, rs, ms) && |rs| == |ms| && k < |ms|
    requires LeftInverse(f, l, CoefficientsOf(f, rs, ms)) && |l[k]| == |rs|
    ensures Dot(f, l[k], SymbolsAt(f, rs, i)) == f.At(truth[ms[k]], i)
  {
    f.NatLaw(|truth[ms[k]]|);
    assert SymbolsAt(f, rs, i) == Known(f, rs, i + f.sizeLen);
    Solution(f, truth, rs, ms, l, k, i + f.sizeLen);
  }

  /** The source rebuilt by full decoding is the one that was committed, in size and in data, even though
      the repairs' symbols have different lengths. */
  lemma RebuiltOk<E(!new)>(f: Field<E>, truth: Truth<E>, rs: seq<Repair<E>>, ms: seq<nat>, l: Matrix<E>, k: nat)
    requires f.Laws() && TruthOk(f, truth) && System(f, truth, rs, ms) && |rs| == |ms| && k < |ms|
    requires LeftInverse(f, l, CoefficientsOf(f, rs, ms)) && |l[k]| == |rs|
    ensures Rebuilt(f, l[k], rs, ms[k]) == Source(ms[k], truth[ms[k]])
  {
    var data := truth[ms[k]];
    RebuiltSizeOk(f, truth, rs, ms, l, k);
    f.NatLaw(|data|);
    var r := Rebuilt(f, l[k], rs, ms[k]);
    assert |r.data| == f.dec(RebuiltSize(f, l[k], rs));
    forall i | 0 <= i < |data|
      ensures r.data[i] == data[i]
    {
      RebuiltDataOk(f, truth, rs, ms, l, k, i);
    }
  }

  // ----- delivering what was rebuilt

  ghost predicate Deliverable<E>(truth: Truth<E>, d: State<E>, srcs: seq<Source<E>>) {
    && (forall i | 0 <= i < |srcs| :: srcs[i].id in truth && truth[srcs[i].id] == srcs[i].data)
    && (forall i | 0 <= i < |srcs| :: srcs[i].id !in d.sources && Low(d) <= srcs[i].id)
    && (forall i, j | 0 <= i < j < |srcs| :: srcs[i].id < srcs[j].id)
  }

  ghost function IdsOf<E>(srcs: seq<Source<E>>): set<nat> {
    set i | 0 <= i < |srcs| :: srcs[i].id
  }

  lemma DeliverAllDelivers<E>(truth: Truth<E>, d: State<E>, srcs: seq<Source<E>>)
    requires Delivers(d, {}) && SourcesTrue(truth, d) && LogTrue(truth, d.log) && Deliverable(truth, d, srcs)
    ensures var r := DeliverAll(d, srcs);
            && Delivers(r, {}) && SourcesTrue(truth, r) && LogTrue(truth, r.log)
            && r.sources.Keys == d.sources.Keys + IdsOf(srcs)
    decreases |srcs|
  {
    if srcs == [] {
      assert IdsOf(srcs) == {};
    } else {
      var init, last := srcs[..|srcs| - 1], srcs[|srcs| - 1];
      DeliverAllDelivers(truth, d, init);
      var r := DeliverAll(d, init);
      IdsOfLast(srcs);
      DeliverDelivers(truth, r, last);
      DeliverStores(r, last);
    }
  }

  lemma IdsOfLast<E>(srcs: seq<Source<E>>)
    requires srcs != [] && forall i, j | 0 <= i < j < |srcs| :: srcs[i].id < srcs[j].id
    ensures var init, last := srcs[..|srcs| - 1], srcs[|srcs| - 1];
            IdsOf(srcs) == IdsOf(init) + {last.id} && last.id !in IdsOf(init)
  {
  }

  lemma DeliverStores<E>(d: State<E>, src: Source<E>)
    ensures Deliver(d, src).sources == d.sources[src.id := src.data]
  {
  }

  /** The repairs and missing sources of a consistent decoder make up such a system. */
  lemma HeldSystem<E(!new)>(f: Field<E>, truth: Truth<E>, d: State<E>)
    requires Links(d) && RepairsRight(f, truth, d) && d.missing.Keys <= truth.Keys
    ensures System(f, truth, RepairList(d), Sorted(d.missing.Keys))
  {
    hide RepairOk, RepairList, Sorted, Links;
    var rs, ms := RepairList(d), Sorted(d.missing.Keys);
    forall j | 0 <= j < |rs|
      ensures RepairOk(f, truth, rs[j]) && forall s | s in rs[j].ids :: s in ms
    {
      var k := HeldAt(d, j);
      EncodesMissing(d, k);
    }
    forall k | 0 <= k < |ms|
      ensures ms[k] in truth
    {
      assert ms[k] in ms;
    }
  }

  lemma EncodesMissing<E>(d: State<E>, k: nat)
    requires Links(d) && k in d.repairs
    ensures d.repairs[k].ids <= d.missing.Keys
  {
  }

  lemma HeldAt<E>(d: State<E>, j: nat) returns (k: nat)
    requires j < |RepairList(d)|
    ensures k in d.repairs && RepairList(d)[j] == d.repairs[k]
  {
    var ks := Sorted(d.repairs.Keys);
    k := ks[j];
    assert k in ks;
  }

  lemma RebuiltDeliverable<E(!new)>(f: Field<E>, truth: Truth<E>, d: State<E>, rs: seq<Repair<E>>, ms: seq<nat>,
          l: Matrix<E>)
    requires f.Laws() && TruthOk(f, truth) && System(f, truth, rs, ms) && |rs| == |ms|
    requires LeftInverse(f, l, CoefficientsOf(f, rs, ms)) && IsSquare(l, |ms|)
    requires forall k | 0 <= k < |ms| :: ms[k] !in d.sources && Low(d) <= ms[k]
    ensures Deliverable(truth, d, RebuiltAll(f, l, rs, ms))
    ensures IdsOf(RebuiltAll(f, l, rs, ms)) == set k | 0 <= k < |ms| :: ms[k]
  {
    var srcs := RebuiltAll(f, l, rs, ms);
    forall k | 0 <= k < |ms|
      ensures srcs[k] == Source(ms[k], truth[ms[k]])
    {
      RebuiltOk(f, truth, rs, ms, l, k);
    }
    forall s
      ensures s in IdsOf(srcs) <==> s in set k | 0 <= k < |ms| :: ms[k]
    {
      if s in IdsOf(srcs) {
        var k :| 0 <= k < |srcs| && srcs[k].id == s;
        assert ms[k] == s;
      }
      if k :| 0 <= k < |ms| && ms[k] == s {
        assert srcs[k].id == s;
      }
    }
  }

  lemma SetOfSorted(s: set<nat>)
    ensures (set k | 0 <= k < |Sorted(s)| :: Sorted(s)[k]) == s
  {
    var ms := Sorted(s);
    forall x
      ensures x in s <==> x in set k | 0 <= k < |ms| :: ms[k]
    {
      assert x in ms <==> x in s;
    }
  }

  /** Full decoding keeps the invariant, stores exactly the missing sources, and uses everything up. */
  lemma SolveGood<E(!new)>(f: Field<E>, truth: Truth<E>, d: State<E>, d': State<E>, l: Matrix<E>)
    requires f.Laws() && TruthOk(f, truth) && Good(f, truth, d, {})
    requires Solved(f, d, d', l)
    ensures Good(f, truth, d', {}) && Low(d') == Low(d) && StillResolved(d, d')
    ensures d'.sources.Keys == d.sources.Keys + d.missing.Keys
    ensures d'.repairs == map[] && d'.missing == map[]
  {
    var rs, ms := RepairList(d), Sorted(d.missing.Keys);
    HeldSystem(f, truth, d);
    SetOfSorted(d.missing.Keys);
    MissingToRebuild(d);
    hide Links, RebuiltAll, CoefficientsOf, RepairList, Sorted, RepairsRight, Young;
    RebuiltDeliverable(f, truth, d, rs, ms, l);
    var srcs := RebuiltAll(f, l, rs, ms);
    DeliverAllDelivers(truth, d, srcs);
    SolvedGood(f, truth, d, DeliverAll(d, srcs), d');
  }

  lemma MissingToRebuild<E>(d: State<E>)
    requires Links(d) && Young(d)
    ensures var ms := Sorted(d.missing.Keys);
            forall k | 0 <= k < |ms| :: ms[k] !in d.sources && Low(d) <= ms[k]
  {
    var ms := Sorted(d.missing.Keys);
    forall k | 0 <= k < |ms|
      ensures ms[k] in d.missing
    {
      assert ms[k] in ms;
    }
  }

  lemma SolvedGood<E(!new)>(f: Field<E>, truth: Truth<E>, d: State<E>, r: State<E>, d': State<E>)
    requires Young(d) && Delivers(r, {}) && SourcesTrue(truth, r) && LogTrue(truth, r.log)
    requires r.sources.Keys == d.sources.Keys + d.missing.Keys && r.lastId == d.lastId
    requires d' == r.(repairs := map[], missing := map[], decoded := d'.decoded)
    ensures Good(f, truth, d', {})
  {
  }
}
