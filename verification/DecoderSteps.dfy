/** One call of the decoder keeps its invariant: what was received, rebuilt or handed over is what was
    committed, and there are never too many repairs. */
module DecoderSteps {
  import opened GaloisField
  import opened LinearAlgebra
  import opened Ids
  import opened Symbols
  import opened DecoderModel
  import opened Peeling
  import opened Delivery
  import opened DecoderInvariant
  import opened FullDecoding

  /** Between calls there are fewer repairs than missing sources, or none. */
  ghost predicate Balanced<E>(d: State<E>) {
    |d.repairs.Keys| == 0 || |d.repairs.Keys| < |d.missing.Keys|
  }

  // ----- counting what a new source decodes

  lemma {:induction false} SameSize(a: set<nat>, b: set<nat>, g: nat -> nat)
    requires forall x | x in a :: g(x) in b
    requires forall x, y | x in a && y in a && g(x) == g(y) :: x == y
    requires forall z | z in b :: exists x :: x in a && g(x) == z
    ensures |a| == |b|
  {
    if a == {} {
      assert forall z | z in b :: false;
      assert b == {};
    } else {
      var x :| x in a;
      var a', b' := a - {x}, b - {g(x)};
      forall z | z in b'
        ensures exists y :: y in a' && g(y) == z
      {
        var y :| y in a && g(y) == z;
        assert y in a';
      }
      SameSize(a', b', g);
    }
  }

  lemma AsManyUsedAsReady<E>(d: State<E>)
    requires Links(d)
    ensures |UsedSet(d)| == |ReadySet(d)|
    ensures UsedSet(d) <= d.repairs.Keys && ReadySet(d) <= d.missing.Keys
  {
    var g := (y: nat) => if y in d.missing && |d.missing[y]| == 1 then Min(d.missing[y]) else 0;
    forall y | y in ReadySet(d)
      ensures g(y) in UsedSet(d) && d.repairs[g(y)].ids == {y}
    {
      var k := ReadyHasOneRepair(d, y);
    }
    forall k | k in UsedSet(d)
      ensures exists y :: y in ReadySet(d) && g(y) == k
    {
      var y := Min(d.repairs[k].ids);
      assert y in ReadySet(d) && g(y) == k;
    }
    SameSize(ReadySet(d), UsedSet(d), g);
  }

  lemma MinusSize<K, V>(m: map<K, V>, s: set<K>)
    requires s <= m.Keys
    ensures |(m - s).Keys| == |m.Keys| - |s|
  {
    assert (m - s).Keys == m.Keys - s;
  }

  /** Each decoded source uses up one repair, and a single repair of a single source never remains. */
  lemma AddCount<E(!new)>(f: Field<E>, d: State<E>, src: Source<E>)
    requires Links(d) && Strippable(d, src.id) && Links(Add(f, d, src))
    ensures var u, d' := Unlink(f, d, src), Add(f, d, src);
            |d'.missing.Keys| - |d'.repairs.Keys| == |u.missing.Keys| - |u.repairs.Keys|
    ensures |Add(f, d, src).repairs.Keys| == 1 ==> |Add(f, d, src).missing.Keys| != 1
  {
    var u, d' := Unlink(f, d, src), Add(f, d, src);
    AddEffect(f, d, src);
    UnlinkKeepsLinks(f, d, src);
    AsManyUsedAsReady(u);
    MinusSize(u.missing, ReadySet(u));
    MinusSize(u.repairs, UsedSet(u));
    if |d'.repairs.Keys| == 1 && |d'.missing.Keys| == 1 {
      LonePairIsReady(d');
    }
  }

  lemma LonePairIsReady<E>(d: State<E>)
    requires Links(d) && |d.repairs.Keys| == 1 && |d.missing.Keys| == 1
    ensures ReadySet(d) != {}
  {
    var k :| k in d.repairs.Keys;
    var y :| y in d.repairs[k].ids;
    SingletonIs(d.repairs.Keys, k);
    SingletonIs(d.missing.Keys, y);
    assert d.repairs[k].ids == {y};
    assert d.missing[y] == {k};
    assert y in ReadySet(d);
  }

  lemma UnlinkCount<E(!new)>(f: Field<E>, d: State<E>, src: Source<E>)
    ensures var u := Unlink(f, d, src);
            && u.repairs.Keys == d.repairs.Keys
            && u.missing.Keys == d.missing.Keys - {src.id}
  {
  }

  // ----- full decoding

  lemma FullStepGood<E(!new)>(f: Field<E>, truth: Truth<E>, d: State<E>, d': State<E>)
    requires f.Laws() && TruthOk(f, truth) && Good(f, truth, d, {}) && FullStep(f, d, d')
    requires |d.repairs.Keys| <= |d.missing.Keys|
    ensures Good(f, truth, d', {}) && Balanced(d') && StillResolved(d, d')
    ensures Low(d') == Low(d) && d'.missing.Keys <= d.missing.Keys
    ensures forall s | s in d'.sources :: s in d.sources || s in d.missing
    ensures forall s | s in d.missing :: s in d'.missing || s in d'.sources
  {
    hide Good, GiveUp, Coefficients, Singular, Solved;
    if |d.repairs.Keys| == 0 || |d.missing.Keys| > |d.repairs.Keys| {
    } else if Singular(f, Coefficients(f, d)) {
      GiveUpGood(f, truth, d);
    } else {
      var l: Matrix<E> :| Solved(f, d, d', l);
      SolveGood(f, truth, d, d', l);
    }
  }

  // ----- a source arrives

  lemma AddSafe<E(!new)>(f: Field<E>, truth: Truth<E>, d: State<E>, src: Source<E>)
    requires f.Laws() && TruthOk(f, truth) && Good(f, truth, d, {})
    requires src.id in truth && truth[src.id] == src.data
    requires src.id !in d.sources && Low(d) <= src.id && Strippable(d, src.id)
    ensures var a := Add(f, d, src);
            && Good(f, truth, a, {}) && Low(a) == Low(d) && StillResolved(d, a)
            && a.missing.Keys <= d.missing.Keys - {src.id}
            && src.id in a.sources
            && (forall s | s in a.sources :: s in d.sources || s == src.id || s in d.missing)
            && |a.missing.Keys| - |a.repairs.Keys| == |d.missing.Keys - {src.id}| - |d.repairs.Keys|
            && (|a.repairs.Keys| == 1 ==> |a.missing.Keys| != 1)
  {
    GoodGives(f, truth, d, {});
    hide Good, Links, Add, Strippable, Delivers, Unlink;
    AddGood(f, truth, d, src, {});
    GoodGives(f, truth, Add(f, d, src), {});
    AddStores(f, d, src);
    UnlinkCount(f, d, src);
    AddCount(f, d, src);
  }

  lemma AddStores<E(!new)>(f: Field<E>, d: State<E>, src: Source<E>)
    requires Links(d) && Strippable(d, src.id)
    ensures var a := Add(f, d, src);
            && a.missing.Keys <= d.missing.Keys - {src.id}
            && src.id in a.sources && d.sources.Keys <= a.sources.Keys
            && a.sources.Keys <= d.sources.Keys + {src.id} + d.missing.Keys
  {
    hide Links, Add, Strippable, Ready;
    AddEffect(f, d, src);
    UnlinkCount(f, d, src);
  }

  /** Any true source may arrive at any time, late, again or out of order, as long as no held repair
      encodes it alone. */
  lemma SourceStepGood<E(!new)>(f: Field<E>, truth: Truth<E>, d: State<E>, src: Source<E>, d': State<E>)
    requires f.Laws() && TruthOk(f, truth) && Good(f, truth, d, {}) && Balanced(d)
    requires src.id in truth && truth[src.id] == src.data && Strippable(d, src.id)
    requires SourceStep(f, d, src, d')
    ensures Good(f, truth, d', {}) && Balanced(d') && StillResolved(d, d')
    ensures Resolved(d', src.id) && Low(d') == Low(d)
  {
    hide Good, Add, FullStep, RepairOk, Strippable;
    if !IsOld(d, src.id) && src.id !in d.sources {
      AddSafe(f, truth, d, src);
      FullStepGood(f, truth, Add(f, d, src), d');
    }
  }

  // ----- a repair arrives

  lemma {:induction false} StripKnownOk<E(!new)>(f: Field<E>, truth: Truth<E>, r: Repair<E>, sources: map<nat,
          seq<E>>, known: set<nat>)
    requires f.Laws() && TruthOk(f, truth) && RepairOk(f, truth, r) && known <= sources.Keys && known <= r.ids
    requires forall s | s in sources :: s in truth && sources[s] == truth[s]
    ensures RepairOk(f, truth, StripKnown(f, r, sources, known))
    ensures StripKnown(f, r, sources, known).ids == r.ids - known
    ensures StripKnown(f, r, sources, known).id == r.id
    decreases |known|
  {
    if known != {} {
      var s := Max(known);
      StripOk(f, truth, r, Source(s, sources[s]));
      StripKnownOk(f, truth, Strip(f, r, Source(s, sources[s])), sources, known - {s});
    }
  }

  lemma {:induction false} StripKnownIds<E(!new)>(f: Field<E>, r: Repair<E>, sources: map<nat, seq<E>>, known: set<nat>)
    requires known <= sources.Keys
    ensures StripKnown(f, r, sources, known).ids == r.ids - known && StripKnown(f, r, sources, known).id == r.id
    decreases |known|
  {
    if known != {} {
      var s := Max(known);
      StripKnownIds(f, Strip(f, r, Source(s, sources[s])), sources, known - {s});
    }
  }

  lemma LinkKeepsLinks<E>(d: State<E>, r: Repair<E>)
    requires Links(d) && r.id !in d.repairs && r.ids != {} && r.ids !! d.sources.Keys
    ensures Links(Link(d, r))
    ensures Link(d, r).missing.Keys == d.missing.Keys + r.ids
    ensures Link(d, r).repairs.Keys == d.repairs.Keys + {r.id}
  {
  }

  lemma LinkGood<E(!new)>(f: Field<E>, truth: Truth<E>, d: State<E>, r: Repair<E>)
    requires Good(f, truth, d, {}) && RepairOk(f, truth, r)
    requires r.id !in d.repairs && r.ids != {} && r.ids !! d.sources.Keys
    requires forall s | s in r.ids :: Low(d) <= s
    ensures Good(f, truth, Link(d, r), {}) && StillResolved(d, Link(d, r))
  {
    LinkKeepsLinks(d, r);
    SameDelivers(d, Link(d, r), {});
    hide Links, SourcesTrue, LogTrue, RepairOk, Delivers;
    assert r.ids <= truth.Keys by {
      EncodesCommitted(f, truth, r);
    }
  }

  lemma EncodesCommitted<E(!new)>(f: Field<E>, truth: Truth<E>, r: Repair<E>)
    requires RepairOk(f, truth, r)
    ensures r.ids <= truth.Keys
  {
  }

  /** The state when a useful repair has degree one: it is used up at once. */
  lemma LinkThenTake<E>(d: State<E>, r: Repair<E>, x: nat)
    requires Links(d) && r.id !in d.repairs && r.ids == {x} && x !in d.sources
    ensures var t := Take(Link(d, r), x, r.id);
            && t.repairs == d.repairs && t.sources == d.sources
            && t.missing.Keys == d.missing.Keys - {x}
            && forall m | m in t.missing :: t.missing[m] == d.missing[m]
  {
  }

  /** No held repair encodes `x`, so forgetting that `x` is missing leaves no dangling link. */
  ghost predicate Alone<E>(d: State<E>, x: nat) {
    forall k | k in d.repairs :: x !in d.repairs[k].ids
  }

  lemma ForgetGood<E(!new)>(f: Field<E>, truth: Truth<E>, d: State<E>, t: State<E>, x: nat)
    requires Good(f, truth, d, {}) && Alone(d, x)
    requires t == d.(missing := t.missing, decoded := t.decoded)
    requires t.missing.Keys == d.missing.Keys - {x} && forall m | m in t.missing :: t.missing[m] == d.missing[m]
    ensures Good(f, truth, t, {})
  {
    AloneKeepsLinks(d, t, x);
    hide Links, SourcesTrue, LogTrue, RepairOk, Alone, Delivers;
    SameDelivers(d, t, {});
  }

  lemma AloneKeepsLinks<E>(d: State<E>, t: State<E>, x: nat)
    requires Links(d) && Alone(d, x)
    requires t.repairs == d.repairs && t.sources == d.sources
    requires t.missing.Keys == d.missing.Keys - {x} && forall m | m in t.missing :: t.missing[m] == d.missing[m]
    ensures Links(t)
  {
  }

  lemma SameDelivers<E>(d: State<E>, t: State<E>, pending: set<nat>)
    requires t == d.(repairs := t.repairs, missing := t.missing, decoded := t.decoded)
    ensures Delivers(t, pending) == Delivers(d, pending)
  {
  }

  /** What the decoder's assertions need of an incoming repair, once outdated data has been dropped: with
      a single unknown source it must be alone with it; with more there must be room for one more repair. */
  ghost predicate MayArrive<E>(d: State<E>, ids: set<nat>) {
    Balanced(d) && RoomFor(d, ids - d.sources.Keys)
  }

  ghost predicate RoomFor<E>(d: State<E>, rest: set<nat>) {
    if rest == {} then true
    else if |rest| == 1 then
      && (forall x | x in rest :: Alone(d, x))
      && (|d.repairs.Keys| == 0 || |d.repairs.Keys| < |d.missing.Keys - rest|)
    else
      |d.repairs.Keys| < |d.missing.Keys + rest|
  }

  lemma DegreeOneTaken<E(!new)>(f: Field<E>, truth: Truth<E>, d: State<E>, s: Repair<E>, x: nat)
    requires Good(f, truth, d, {})
    requires s.id !in d.repairs && s.ids == {x} && x !in d.sources && Alone(d, x)
    ensures var t := Take(Link(d, s), x, s.id);
            && Good(f, truth, t, {}) && Strippable(t, x)
            && t.repairs == d.repairs && t.missing.Keys == d.missing.Keys - {x}
            && t.sources == d.sources && Low(t) == Low(d) && StillResolved(d, t)
  {
    LinkThenTake(d, s, x);
    ForgetGood(f, truth, d, Take(Link(d, s), x, s.id), x);
  }

  /** Adding a source that is not missing keeps the balance. */
  lemma AddUnlinked<E(!new)>(f: Field<E>, truth: Truth<E>, d: State<E>, src: Source<E>)
    requires f.Laws() && TruthOk(f, truth) && Good(f, truth, d, {}) && Balanced(d)
    requires src.id in truth && truth[src.id] == src.data && src.id !in d.missing
    requires src.id !in d.sources && Low(d) <= src.id && Strippable(d, src.id)
    ensures var a := Add(f, d, src);
            && Good(f, truth, a, {}) && Low(a) == Low(d) && StillResolved(d, a) && Balanced(a)
            && a.missing.Keys <= d.missing.Keys && src.id in a.sources
            && a.sources.Keys <= d.sources.Keys + d.missing.Keys + {src.id}
  {
    hide Good, Add, Strippable, StillResolved;
    AddSafe(f, truth, d, src);
    assert d.missing.Keys - {src.id} == d.missing.Keys;
  }

  lemma DegreeOneGood<E(!new)>(f: Field<E>, truth: Truth<E>, d: State<E>, s: Repair<E>, x: nat)
    requires f.Laws() && TruthOk(f, truth) && Good(f, truth, d, {}) && RepairOk(f, truth, s)
    requires s.id !in d.repairs && s.ids == {x} && x !in d.sources && Low(d) <= x && Alone(d, x)
    requires |d.repairs.Keys| == 0 || |d.repairs.Keys| < |d.missing.Keys - {x}|
    ensures var d' := Add(f, Take(Link(d, s), x, s.id), Create(f, s));
            && Good(f, truth, d', {}) && Balanced(d') && StillResolved(d, d')
            && Low(d') == Low(d) && x in d'.sources
            && d'.missing.Keys <= d.missing.Keys - {x}
            && d'.sources.Keys <= d.sources.Keys + d.missing.Keys + {x}
  {
    hide Good, Add, Create, Strippable, Take, Link, Alone, Comb, StillResolved;
    var t := Take(Link(d, s), x, s.id);
    CreateOk(f, truth, s, x);
    DegreeOneTaken(f, truth, d, s, x);
    assert x in truth;
    AddUnlinked(f, truth, t, Create(f, s));
    ResolvedLonger(d, t, Add(f, t, Create(f, s)));
  }

  lemma HigherDegreeGood<E(!new)>(f: Field<E>, truth: Truth<E>, d: State<E>, s: Repair<E>, d': State<E>)
    requires f.Laws() && TruthOk(f, truth) && Good(f, truth, d, {}) && RepairOk(f, truth, s)
    requires s.id !in d.repairs && s.ids != {} && s.ids !! d.sources.Keys && forall x | x in s.ids :: Low(d) <= x
    requires |d.repairs.Keys| < |d.missing.Keys + s.ids| && FullStep(f, Link(d, s), d')
    ensures Good(f, truth, d', {}) && Balanced(d') && StillResolved(d, d') && Low(d') == Low(d)
    ensures forall x | x in s.ids :: x in d'.sources || x in d'.missing
    ensures d'.missing.Keys <= d.missing.Keys + s.ids
    ensures d'.sources.Keys <= d.sources.Keys + d.missing.Keys + s.ids
  {
    hide Good, Link, FullStep, RepairOk, Resolved;
    LinkedGood(f, truth, d, s);
    FullStepGood(f, truth, Link(d, s), d');
  }

  lemma UsefulGood<E(!new)>(f: Field<E>, truth: Truth<E>, d: State<E>, r: Repair<E>, d': State<E>)
    requires f.Laws() && TruthOk(f, truth) && Good(f, truth, d, {}) && RepairOk(f, truth, r)
    requires r.id !in d.repairs && !(r.ids <= d.sources.Keys) && forall s | s in r.ids :: Low(d) <= s
    requires MayArrive(d, r.ids) && UsefulStep(f, d, r, d')
    ensures Good(f, truth, d', {}) && Balanced(d') && StillResolved(d, d') && Low(d') == Low(d)
    ensures forall x | x in r.ids :: Resolved(d', x) || x in d'.missing
    ensures d'.missing.Keys <= d.missing.Keys + r.ids
    ensures d'.sources.Keys <= d.sources.Keys + d.missing.Keys + r.ids
  {
    hide Good, Add, Create, Link, FullStep, StripKnown, RepairOk, Alone;
    var s := StrippedRight(f, truth, d, r);
    if |s.ids| == 1 {
      var x := Min(s.ids);
      SingletonIs(s.ids, x);
      DegreeOneGood(f, truth, d, s, x);
    } else {
      HigherDegreeGood(f, truth, d, s, d');
    }
    forall x | x in r.ids
      ensures Resolved(d', x) || x in d'.missing
    {
      assert x in d.sources || x in s.ids;
      if x in d.sources {
        assert Resolved(d, x);
      }
    }
  }

  lemma StrippedRight<E(!new)>(f: Field<E>, truth: Truth<E>, d: State<E>, r: Repair<E>) returns (s: Repair<E>)
    requires f.Laws() && TruthOk(f, truth) && Good(f, truth, d, {}) && RepairOk(f, truth, r)
    requires !(r.ids <= d.sources.Keys)
    ensures s == StripKnown(f, r, d.sources, r.ids * d.sources.Keys)
    ensures RepairOk(f, truth, s) && s.id == r.id && s.ids == r.ids - d.sources.Keys && s.ids != {}
  {
    var e :| e in r.ids && e !in d.sources;
    StripKnownOk(f, truth, r, d.sources, r.ids * d.sources.Keys);
    s := StripKnown(f, r, d.sources, r.ids * d.sources.Keys);
    assert e in s.ids;
  }

  lemma LinkedGood<E(!new)>(f: Field<E>, truth: Truth<E>, d: State<E>, r: Repair<E>)
    requires Good(f, truth, d, {}) && RepairOk(f, truth, r)
    requires r.id !in d.repairs && r.ids != {} && r.ids !! d.sources.Keys
    requires forall s | s in r.ids :: Low(d) <= s
    ensures Good(f, truth, Link(d, r), {}) && StillResolved(d, Link(d, r)) && Low(Link(d, r)) == Low(d)
    ensures Link(d, r).missing.Keys == d.missing.Keys + r.ids
    ensures Link(d, r).repairs.Keys == d.repairs.Keys + {r.id}
    ensures Link(d, r).sources == d.sources
  {
    LinkGood(f, truth, d, r);
    LinkKeepsLinks(d, r);
  }

  lemma DropOutdatedShrinks<E>(d: State<E>, id: nat)
    ensures DropOutdated(d, id).repairs.Keys <= d.repairs.Keys
    ensures DropOutdated(d, id).missing.Keys == set m | m in d.missing && id <= m
    ensures Low(DropOutdated(d, id)) == id
  {
  }

  lemma CountersDoNotMatter<E(!new)>(f: Field<E>, truth: Truth<E>, d: State<E>, t: State<E>)
    requires Good(f, truth, d, {})
    requires t == d.(useless := t.useless, failed := t.failed, decoded := t.decoded)
    ensures Good(f, truth, t, {})
  {
    SameLinks(d, t);
  }

  /** A right repair keeps the invariant provided it does not start below the outdated sources and may
      arrive in the sense above. */
  lemma RepairStepGood<E(!new)>(f: Field<E>, truth: Truth<E>, d: State<E>, r: Repair<E>, d': State<E>)
    requires f.Laws() && TruthOk(f, truth) && Good(f, truth, d, {}) && Balanced(d)
    requires r.ids != {} && RepairOk(f, truth, r) && Low(d) <= Min(r.ids)
    requires MayArrive(DropOutdated(d, Min(r.ids)), r.ids)
    requires RepairStep(f, d, r, d')
    ensures Good(f, truth, d', {}) && Balanced(d') && StillResolved(d, d') && Low(d) <= Low(d') <= Min(r.ids)
  {
    hide Good, RepairOk, UsefulStep, DropOutdated, Alone;
    if !IsOld(d, Max(r.ids)) && r.id !in d.repairs {
      var id := Min(r.ids);
      var current := DropOutdated(d, id);
      DropOutdatedGood(f, truth, d, id);
      DropOutdatedShrinks(d, id);
      if !(r.ids <= current.sources.Keys) {
        UsefulGood(f, truth, current, r, d');
      } else {
        CountersDoNotMatter(f, truth, current, d');
      }
    }
  }
}
