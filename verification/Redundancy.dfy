/** What `GivenUp.dfy` means for packets: as long as the repairs that are held are independent, a repair that arrives
    and is given up says nothing that they do not; once they are dependent, every repair that would complete them is
    given up, until something is outdated. */
module Redundancy {
  import opened Wrappers
  import opened GaloisField
  import opened LinearAlgebra
  import opened Dependence
  import opened Ids
  import opened Symbols
  import opened DecoderModel
  import opened Peeling
  import opened Delivery
  import opened DecoderInvariant
  import opened DecoderSteps
  import opened GivenUp

  // ----- known sources do not matter

  /** If other data satisfy what is left of a repair, they satisfy the repair, if they agree on what was removed. */
  lemma StripTells<E(!new)>(f: Field<E>, truth: Truth<E>, truth': Truth<E>, r: Repair<E>, src: Source<E>)
    requires f.Laws() && TruthOk(f, truth) && truth'.Keys == truth.Keys && RepairOk(f, truth, r)
    requires src.id in r.ids && truth[src.id] == truth'[src.id] == src.data
    requires Satisfies(f, truth', Strip(f, r, src))
    ensures Satisfies(f, truth', r)
  {
    var c := f.Coefficient(r.id, src.id);
    var t := Strip(f, r, src);
    forall i: nat
      ensures f.At(r.size + r.symbol, i) == Comb(f, r.id, r.ids, truth', i)
    {
      var x, y := f.At(r.size + r.symbol, i), Term(f, r.id, src.id, truth', i);
      WordAddScaled(f, r.size, r.symbol, c, src.data, i);
      assert f.At(t.size + t.symbol, i) == f.add(x, y);
      assert f.At(t.size + t.symbol, i) == Comb(f, t.id, t.ids, truth', i);
      CombRemove(f, r.id, r.ids, truth', i, src.id);
      f.AddCancels(x, y);
      f.AddCancels(y, x);
      f.Law(x, y, y);
      f.Law(f.add(x, y), y, y);
    }
  }

  lemma {:induction false} StripKnownTells<E(!new)>(f: Field<E>, truth: Truth<E>, truth': Truth<E>, r: Repair<E>,
          sources: map<nat, seq<E>>, known: set<nat>)
    requires f.Laws() && TruthOk(f, truth) && truth'.Keys == truth.Keys && RepairOk(f, truth, r)
    requires known <= r.ids && known <= sources.Keys
    requires forall s | s in known :: s in truth && truth[s] == truth'[s] == sources[s]
    requires Satisfies(f, truth', StripKnown(f, r, sources, known))
    ensures Satisfies(f, truth', r)
    decreases |known|
  {
    if known != {} {
      var s := Max(known);
      var src := Source(s, sources[s]);
      hide RepairOk, Satisfies, TruthOk;
      StripOk(f, truth, r, src);
      StripKnownTells(f, truth, truth', Strip(f, r, src), sources, known - {s});
      StripTells(f, truth, truth', r, src);
    }
  }

  // ----- a repair that is given up on arrival

  lemma FullStepFails<E(!new)>(f: Field<E>, e: State<E>, d': State<E>)
    requires |e.repairs.Keys| <= |e.missing.Keys| && FullStep(f, e, d') && d'.failed != e.failed
    ensures |e.repairs.Keys| == |e.missing.Keys|
  {
    hide Coefficients, Singular, LeftInverse, RebuiltAll, RepairList, Sorted;
  }

  lemma OutdatingCounts<E>(d: State<E>, id: nat)
    ensures DropOutdated(d, id).failed == d.failed
  {
  }

  lemma OneIsDecoded<E(!new)>(f: Field<E>, c: State<E>, s: Repair<E>, d': State<E>)
    requires Links(c) && s.id !in c.repairs && |s.ids| == 1 && Alone(c, Min(s.ids)) && Min(s.ids) !in c.sources
    requires d' == Add(f, Take(Link(c, s), Min(s.ids), s.id), Create(f, s))
    ensures d'.failed == c.failed
  {
    hide *;
    var x := Min(s.ids);
    var t := Take(Link(c, s), x, s.id);
    SingletonIs(s.ids, x);
    CreateId(f, s, x);
    Isolated(c, s, x);
    AddEffect(f, t, Create(f, s));
    StillCounts(c, s, x);
    SameCount(t, d');
  }

  lemma SameCount<E>(t: State<E>, d': State<E>)
    requires Untouched(t, d')
    ensures d'.failed == t.failed
  {
  }

  lemma StillCounts<E>(c: State<E>, s: Repair<E>, x: nat)
    ensures Take(Link(c, s), x, s.id).failed == c.failed
  {
  }

  lemma Isolated<E>(c: State<E>, s: Repair<E>, x: nat)
    requires Links(c) && s.id !in c.repairs && s.ids == {x} && Alone(c, x) && x !in c.sources
    ensures Links(Take(Link(c, s), x, s.id)) && Strippable(Take(Link(c, s), x, s.id), x)
  {
    LinkThenTake(c, s, x);
    hide Link, Take;
  }

  /** Only a repair with several unknown sources, as many as are missing with it, is given up. */
  lemma FailedIs<E(!new)>(f: Field<E>, truth: Truth<E>, d: State<E>, r: Repair<E>, d': State<E>) returns (s: Repair<E>)
    requires f.Laws() && TruthOk(f, truth) && Good(f, truth, d, {}) && RepairOk(f, truth, r) && r.ids != {}
    requires Low(d) <= Min(r.ids) && MayArrive(DropOutdated(d, Min(r.ids)), r.ids)
    requires RepairStep(f, d, r, d') && d'.failed == d.failed + 1
    ensures var c := DropOutdated(d, Min(r.ids));
            && Good(f, truth, c, {}) && r.id !in c.repairs && s == StripKnown(f, r, c.sources, r.ids * c.sources.Keys)
            && RepairOk(f, truth, s) && s.id == r.id && s.ids == r.ids - c.sources.Keys && s.ids != {}
            && |c.repairs.Keys| + 1 == |c.missing.Keys + s.ids| && FullStep(f, Link(c, s), d') && c.failed == d.failed
  {
    hide *;
    var c := DropOutdated(d, Min(r.ids));
    DropOutdatedGood(f, truth, d, Min(r.ids));
    DropOutdatedShrinks(d, Min(r.ids));
    OutdatingCounts(d, Min(r.ids));
    CountedUseful(f, d, r, d');
    s := StrippedRight(f, truth, c, r);
    LinkedRepairs(c, s);
    GoodGives(f, truth, c, {});
    SizedIs(c, r, s.ids);
    assert Min(s.ids) in s.ids;
    UsefulFails(f, c, r, s, d');
  }

  lemma CountedUseful<E(!new)>(f: Field<E>, d: State<E>, r: Repair<E>, d': State<E>)
    requires r.ids != {} && RepairStep(f, d, r, d') && d'.failed == d.failed + 1
    requires DropOutdated(d, Min(r.ids)).failed == d.failed
    ensures var c := DropOutdated(d, Min(r.ids)); !(r.ids <= c.sources.Keys) && UsefulStep(f, c, r, d')
    ensures r.id !in d.repairs.Keys
  {
    hide DropOutdated, UsefulStep;
  }

  lemma SizedIs<E>(c: State<E>, r: Repair<E>, rest: set<nat>)
    requires MayArrive(c, r.ids) && rest == r.ids - c.sources.Keys && rest != {}
    ensures if |rest| == 1 then Alone(c, Min(rest)) else |c.repairs.Keys| < |c.missing.Keys + rest|
  {
    hide Alone, Balanced;
    assert RoomFor(c, rest);
  }

  lemma UsefulFails<E(!new)>(f: Field<E>, c: State<E>, r: Repair<E>, s: Repair<E>, d': State<E>)
    requires Links(c) && s.id == r.id && s.id !in c.repairs && s.ids != {} && Min(s.ids) !in c.sources
    requires s == StripKnown(f, r, c.sources, r.ids * c.sources.Keys) && UsefulStep(f, c, r, d')
    requires if |s.ids| == 1 then Alone(c, Min(s.ids)) else |c.repairs.Keys| < |c.missing.Keys + s.ids|
    requires d'.failed == c.failed + 1
    ensures |c.repairs.Keys| + 1 == |c.missing.Keys + s.ids| && FullStep(f, Link(c, s), d')
  {
    hide StripKnown, FullStep, Add, Link, Take, Create, Alone, Links;
    LinkedRepairs(c, s);
    if |s.ids| == 1 {
      OneIsDecoded(f, c, s, d');
    } else {
      FullStepFails(f, Link(c, s), d');
    }
  }

  lemma KeptTruth<E(!new)>(f: Field<E>, truth: Truth<E>, truth': Truth<E>, c: State<E>, r: Repair<E>)
    requires SourcesTrue(truth, c) && c.missing.Keys !! c.sources.Keys && r.ids <= truth.Keys
    requires truth'.Keys == truth.Keys
    requires forall x | x in truth && x !in c.missing && x !in r.ids - c.sources.Keys :: truth'[x] == truth[x]
    ensures forall s | s in r.ids * c.sources.Keys :: s in truth && truth[s] == truth'[s] == c.sources[s]
  {
  }

  /** Repairs arrive with increasing identifiers, and those that are held are independent. If the new one is given up,
      then whatever the missing sources are, if it fits the repairs that the decoder still has, it fits the new one. */
  lemma RepairLosesNothing<E(!new)>(f: Field<E>, truth: Truth<E>, d: State<E>, r: Repair<E>, d': State<E>,
          truth': Truth<E>)
    requires f.Laws() && TruthOk(f, truth) && Good(f, truth, d, {}) && RepairOk(f, truth, r) && r.ids != {}
    requires Low(d) <= Min(r.ids) && MayArrive(DropOutdated(d, Min(r.ids)), r.ids)
    requires RepairStep(f, d, r, d') && d'.failed == d.failed + 1
    requires (forall k | k in d.repairs :: k < r.id) && Independent(f, DropOutdated(d, Min(r.ids)))
    requires TruthOk(f, truth') && truth'.Keys == truth.Keys
    requires forall x | x in truth && x !in d'.missing :: truth'[x] == truth[x]
    requires forall k | k in d'.repairs :: Satisfies(f, truth', d'.repairs[k])
    ensures Satisfies(f, truth', r)
  {
    hide *;
    var c := DropOutdated(d, Min(r.ids));
    var s := FailedIs(f, truth, d, r, d');
    GoodGives(f, truth, c, {});
    DropOutdatedShrinks(d, Min(r.ids));
    assert forall k | k in c.repairs.Keys :: k in d.repairs.Keys;
    ArrivalExactly(f, c, s, d');
    KnownApart(c);
    assert c.repairs == d'.repairs;
    assert forall x | x in truth && x !in c.missing && x !in s.ids :: x !in d'.missing.Keys;
    NothingIsLost(f, truth, c, s, d', truth');
    OkSatisfies(f, truth, r);
    KeptTruth(f, truth, truth', c, r);
    StripKnownTells(f, truth, truth', r, c.sources, r.ids * c.sources.Keys);
  }

  // ----- once the held repairs are dependent

  /** A repair with the largest identifier of two or more missing sources, which outdates nothing. */
  ghost predicate Completes<E>(d: State<E>, r: Repair<E>) {
    && |r.ids| >= 2 && r.ids <= d.missing.Keys && (forall k | k in d.repairs :: k < r.id)
    && DropOutdated(d, Min(r.ids)) == d
  }

  lemma CompletingStep<E(!new)>(f: Field<E>, d: State<E>, r: Repair<E>, d': State<E>)
    requires Links(d) && Completes(d, r) && RepairStep(f, d, r, d')
    ensures FullStep(f, Link(d, r), d')
  {
    var x := Min(r.ids);
    OutdatingIs(d, x);
    assert d.lastId == Some(x) && !IsOld(d, Max(r.ids));
    KnownApart(d);
    assert r.ids * d.sources.Keys == {} && !(r.ids <= d.sources.Keys);
    hide DropOutdated, FullStep, Link, Links;
    assert StripKnown(f, r, d.sources, {}) == r;
  }

  /** When as many are missing as would be repairs with it, and those that are held are dependent, it is given up. */
  lemma GivenUpAgain<E(!new)>(f: Field<E>, d: State<E>, r: Repair<E>, d': State<E>)
    requires f.Laws() && Links(d) && |d.repairs.Keys| + 1 == |d.missing.Keys| && !Independent(f, d)
    requires Completes(d, r) && RepairStep(f, d, r, d')
    ensures d' == d.(failed := d.failed + 1)
  {
    hide *;
    CompletingStep(f, d, r, d');
    CompletesGives(d, r);
    assert d.missing.Keys + r.ids == d.missing.Keys;
    ArrivalExactly(f, d, r, d');
  }

  lemma CompletesGives<E>(d: State<E>, r: Repair<E>)
    requires Completes(d, r)
    ensures |r.ids| >= 2 && r.ids <= d.missing.Keys && forall k | k in d.repairs :: k < r.id
  {
    hide DropOutdated;
  }

  lemma OnlyCounts<E(!new)>(f: Field<E>, d: State<E>, t: State<E>)
    requires t == d.(failed := t.failed) && Links(d)
    ensures Links(t) && (Independent(f, t) <==> Independent(f, d))
  {
    SameLinks(d, t);
    SameRows(f, d, t);
    hide Dependent, Coefficients, Links;
  }

  lemma SameRows<E(!new)>(f: Field<E>, d: State<E>, t: State<E>)
    requires t.repairs == d.repairs && t.missing == d.missing
    ensures Coefficients(f, t) == Coefficients(f, d)
  {
    hide Entries;
    assert RepairList(t) == RepairList(d);
  }

  /** However many of them arrive, the decoder only counts its failures. */
  lemma {:induction false} StaysStuck<E(!new)>(f: Field<E>, ds: seq<State<E>>, rs: seq<Repair<E>>, i: nat)
    requires f.Laws() && |ds| == |rs| + 1 && Links(ds[0]) && !Independent(f, ds[0])
    requires |ds[0].repairs.Keys| + 1 == |ds[0].missing.Keys| && i < |ds|
    requires forall j | 0 <= j < |rs| :: Completes(ds[j], rs[j]) && RepairStep(f, ds[j], rs[j], ds[j + 1])
    ensures ds[i] == ds[0].(failed := ds[0].failed + i)
  {
    hide *;
    if i > 0 {
      StaysStuck(f, ds, rs, i - 1);
      OnlyCounts(f, ds[0], ds[i - 1]);
      assert Completes(ds[i - 1], rs[i - 1]);
      CompletesGives(ds[i - 1], rs[i - 1]);
      assert RepairStep(f, ds[i - 1], rs[i - 1], ds[i - 1 + 1]);
      GivenUpAgain(f, ds[i - 1], rs[i - 1], ds[i]);
    }
  }
}
