/** What the decoder holds, as identifiers only: enough to follow it through short runs, since which repairs are linked
    and which sources are decodable does not depend on the data. */
module Shapes {
  import opened Wrappers
  import opened GaloisField
  import opened LinearAlgebra
  import opened Ids
  import opened Symbols
  import opened DecoderModel
  import opened EncoderModel
  import opened Peeling
  import opened Delivery
  import opened DecoderInvariant
  import opened FullDecoding
  import opened DecoderSteps
  import opened SavedIterator
  import opened Processing
  import opened LostSources
  import opened Repeats
  import opened GivenUp

  /** The sources that each repair encodes, and the identifiers of missing and stored sources. */
  datatype Shape = Shape(repairs: map<nat, set<nat>>, missing: set<nat>, sources: set<nat>, last: Option<nat>)

  ghost predicate Has<E>(d: State<E>, s: Shape) {
    && Links(d)
    && d.repairs.Keys == s.repairs.Keys && (forall k | k in s.repairs :: d.repairs[k].ids == s.repairs[k])
    && d.missing.Keys == s.missing && d.sources.Keys == s.sources && d.lastId == s.last
  }

  ghost function Empty(): Shape {
    Shape(map[], {}, {}, None)
  }

  lemma InitialHas<E>(inOrder: bool)
    ensures Has(Initial<E>(inOrder), Empty())
  {
  }

  // ----- outdating

  ghost function Outdating(s: Shape, id: nat): Shape {
    Shape(map k | k in s.repairs && (forall x | x in s.repairs[k] :: id <= x) :: s.repairs[k],
          (set m | m in s.missing && id <= m), (set m | m in s.sources && id <= m), Some(id))
  }

  lemma OutdatedIs<E>(d: State<E>, id: nat, k: nat)
    requires k in d.repairs && d.repairs[k].ids != {}
    ensures k in Outdated(d, id) <==> exists x :: x in d.repairs[k].ids && x < id
  {
  }

  lemma OutdatingHas<E(!new)>(f: Field<E>, d: State<E>, s: Shape, id: nat)
    requires Has(d, s)
    ensures Has(DropOutdated(d, id), Outdating(s, id))
  {
    hide DropOutdated, Outdated;
    OutdatingLinks(f, d, id);
    OutdatingIs(d, id);
    var t := Outdating(s, id);
    forall k | k in d.repairs
      ensures k in Outdated(d, id) <==> k !in t.repairs
    {
      OutdatedIs(d, id, k);
    }
    hide Links;
    assert forall k | k in t.repairs :: k in s.repairs;
  }

  /** Nothing is older than `id`. */
  lemma NothingOutdated(s: Shape, id: nat)
    requires forall k, x | k in s.repairs && x in s.repairs[k] :: id <= x
    requires (forall m | m in s.missing :: id <= m) && forall m | m in s.sources :: id <= m
    ensures Outdating(s, id) == s.(last := Some(id))
  {
    assert Outdating(s, id).repairs == s.repairs;
  }

  lemma AllOutdated(s: Shape, id: nat)
    requires s.repairs == map[] && s.missing == {} && forall m | m in s.sources :: m < id
    ensures Outdating(s, id) == Shape(map[], {}, {}, Some(id))
  {
  }

  // ----- a repair of several unknown sources

  ghost function Linking(s: Shape, id: nat, ids: set<nat>): Shape {
    var unknown := ids - s.sources;
    s.(repairs := s.repairs[id := unknown], missing := s.missing + unknown)
  }

  lemma LinkHas<E>(d: State<E>, s: Shape, r: Repair<E>, ids: set<nat>)
    requires Has(d, s) && r.id !in s.repairs && r.ids == ids - s.sources && r.ids != {}
    ensures Has(Link(d, r), Linking(s, r.id, ids))
  {
    LinkKeepsLinks(d, r);
    hide Links;
  }

  /** The state in which full decoding is attempted. */
  ghost function Linked<E(!new)>(f: Field<E>, d: State<E>, r: Repair<E>): State<E>
    requires r.ids != {}
  {
    var c := DropOutdated(d, Min(r.ids));
    Link(c, StripKnown(f, r, c.sources, r.ids * c.sources.Keys))
  }

  lemma LinkedHas<E(!new)>(f: Field<E>, d: State<E>, s: Shape, r: Repair<E>)
    requires Has(d, s) && r.ids != {} && r.id !in s.repairs
    requires !(r.ids <= Outdating(s, Min(r.ids)).sources)
    ensures Has(Linked(f, d, r), Linking(Outdating(s, Min(r.ids)), r.id, r.ids))
  {
    var c, t := DropOutdated(d, Min(r.ids)), Outdating(s, Min(r.ids));
    OutdatingHas(f, d, s, Min(r.ids));
    StripKnownIds(f, r, c.sources, r.ids * c.sources.Keys);
    var x :| x in r.ids && x !in t.sources;
    hide DropOutdated, Links, StripKnown, Link;
    assert x in r.ids - t.sources;
    LinkHas(c, t, StripKnown(f, r, c.sources, r.ids * c.sources.Keys), r.ids);
  }

  lemma StepIs<E(!new)>(f: Field<E>, d: State<E>, r: Repair<E>, c: State<E>, d': State<E>)
    requires r.ids != {} && !IsOld(d, Max(r.ids)) && r.id !in d.repairs && c == DropOutdated(d, Min(r.ids))
    requires !(r.ids <= c.sources.Keys) && |StripKnown(f, r, c.sources, r.ids * c.sources.Keys).ids| != 1
    ensures RepairStep(f, d, r, d') <==> FullStep(f, Linked(f, d, r), d')
  {
    hide DropOutdated, StripKnown, Link, FullStep;
  }

  lemma NotOld<E>(d: State<E>, s: Shape, x: nat)
    requires Has(d, s) && (s.last.Some? ==> s.last.value <= x)
    ensures !IsOld(d, x)
  {
  }

  lemma NotAllKnown(ids: set<nat>, known: set<nat>)
    ensures ids <= known ==> |ids - known| == 0
  {
    if ids <= known {
      assert ids - known == {};
    }
  }

  lemma StepLinks<E(!new)>(f: Field<E>, d: State<E>, s: Shape, r: Repair<E>, d': State<E>)
    requires Has(d, s) && r.ids != {} && r.id !in s.repairs && (s.last.Some? ==> s.last.value <= Max(r.ids))
    requires |r.ids - Outdating(s, Min(r.ids)).sources| >= 2
    ensures RepairStep(f, d, r, d') <==> FullStep(f, Linked(f, d, r), d')
  {
    hide Links, DropOutdated, StripKnown, Linked, RepairStep, FullStep, IsOld, Outdating;
    var c, t := DropOutdated(d, Min(r.ids)), Outdating(s, Min(r.ids));
    OutdatingHas(f, d, s, Min(r.ids));
    StripKnownIds(f, r, c.sources, r.ids * c.sources.Keys);
    assert r.ids - t.sources == r.ids - r.ids * c.sources.Keys;
    NotAllKnown(r.ids, c.sources.Keys);
    NotOld(d, s, Max(r.ids));
    StepIs(f, d, r, c, d');
  }

  // ----- a new source that makes nothing decodable

  ghost function Unlinking(s: Shape, x: nat): Shape {
    s.(repairs := map k | k in s.repairs :: s.repairs[k] - {x}, missing := s.missing - {x})
  }

  /** Every source that a repair encodes alone is encoded by another one too. */
  ghost predicate Quiet(s: Shape) {
    forall k, y | k in s.repairs && s.repairs[k] == {y} :: exists j :: j in s.repairs && j != k && y in s.repairs[j]
  }

  lemma UnlinkHas<E(!new)>(f: Field<E>, d: State<E>, s: Shape, src: Source<E>)
    requires Has(d, s) && forall k | k in s.repairs :: s.repairs[k] != {src.id}
    ensures Has(Unlink(f, d, src), Unlinking(s, src.id)) && Strippable(d, src.id)
  {
    assert Strippable(d, src.id);
    UnlinkKeepsLinks(f, d, src);
    if src.id in d.missing {
      UnlinkIds(f, d, src);
    } else {
      assert forall k | k in s.repairs :: src.id !in s.repairs[k] && s.repairs[k] - {src.id} == s.repairs[k];
    }
    hide Links;
  }

  lemma QuietIsIdle<E>(d: State<E>, s: Shape)
    requires Has(d, s) && Quiet(s)
    ensures ReadySet(d) == {}
  {
    forall y | y in d.missing
      ensures !Ready(d, y)
    {
      if Ready(d, y) {
        var k := ReadyHasOneRepair(d, y);
      }
    }
  }

  lemma LoneIsReady<E>(d: State<E>, s: Shape, k: nat, y: nat)
    requires Has(d, s) && k in s.repairs && s.repairs[k] == {y}
    requires forall j | j in s.repairs && j != k :: y !in s.repairs[j]
    ensures y in ReadySet(d) && k in UsedSet(d)
  {
    assert y in d.repairs[k].ids;
    forall j | j in d.missing[y]
      ensures j == k
    {
      assert y in d.repairs[j].ids;
    }
    assert d.missing[y] == {k};
    MinIs({k}, k);
    MinIs({y}, y);
    assert Ready(d, y);
    assert UsedUp(d, k);
  }

  /** The state in which full decoding is attempted. */
  ghost function Added<E(!new)>(f: Field<E>, d: State<E>, src: Source<E>): State<E> {
    Store(Unlink(f, Announce(d, src), src), src)
  }

  lemma AddedHas<E(!new)>(f: Field<E>, d: State<E>, s: Shape, src: Source<E>)
    requires Has(d, s) && forall k | k in s.repairs :: s.repairs[k] != {src.id}
    ensures var t := Unlinking(s, src.id); Has(Added(f, d, src), t.(sources := s.sources + {src.id}))
  {
    var a := Announce(d, src);
    SameLinks(d, a);
    hide Announce, Unlink, Links, Unlinking;
    UnlinkHas(f, a, s, src);
    StoreLinks(Unlink(f, a, src), src);
  }

  lemma StoreLinks<E>(u: State<E>, src: Source<E>)
    requires Links(u) && src.id !in u.missing
    ensures Links(Store(u, src))
  {
  }

  lemma StepAdds<E(!new)>(f: Field<E>, d: State<E>, s: Shape, src: Source<E>, d': State<E>)
    requires Has(d, s) && src.id !in s.sources && (s.last.Some? ==> s.last.value <= src.id)
    requires (forall k | k in s.repairs :: s.repairs[k] != {src.id}) && Quiet(Unlinking(s, src.id))
    ensures SourceStep(f, d, src, d') <==> FullStep(f, Added(f, d, src), d')
  {
    var a := Announce(d, src);
    SameLinks(d, a);
    UnlinkHas(f, a, s, src);
    hide Links, Announce, Unlink, FullStep;
    QuietIsIdle(Unlink(f, a, src), Unlinking(s, src.id));
    ScanIdle(f, Unlink(f, a, src), 0);
  }

  // ----- full decoding

  /** The coefficients are those of the identifiers. */
  ghost function MatrixOf<E(!new)>(f: Field<E>, s: Shape, ks: seq<nat>, ms: seq<nat>): Matrix<E>
    requires forall j | 0 <= j < |ks| :: ks[j] in s.repairs
  {
    seq(|ks|, j requires 0 <= j < |ks| => Entries(f, ks[j], s.repairs[ks[j]], ms))
  }

  lemma MatrixIs<E(!new)>(f: Field<E>, d: State<E>, s: Shape, ks: seq<nat>, ms: seq<nat>)
    requires Has(d, s) && ks == Sorted(s.repairs.Keys) && ms == Sorted(s.missing)
    ensures (forall j | 0 <= j < |ks| :: ks[j] in s.repairs) && Coefficients(f, d) == MatrixOf(f, s, ks, ms)
  {
    hide *;
    HeldRepairs(d, s, ks);
    ListIs(d);
    HasSizes(d, s);
    RowsAre(f, s, RepairList(d), ks, ms);
    CoefficientsAre(f, d);
  }

  lemma HeldRepairs<E>(d: State<E>, s: Shape, ks: seq<nat>)
    requires Has(d, s) && ks == Sorted(s.repairs.Keys)
    ensures s.repairs.Keys == d.repairs.Keys && s.missing == d.missing.Keys
    ensures forall j | 0 <= j < |ks| ::
              ks[j] in s.repairs && d.repairs[ks[j]].id == ks[j] && d.repairs[ks[j]].ids == s.repairs[ks[j]]
  {
    forall j | 0 <= j < |ks|
      ensures ks[j] in s.repairs && d.repairs[ks[j]].id == ks[j] && d.repairs[ks[j]].ids == s.repairs[ks[j]]
    {
      assert ks[j] in ks;
    }
  }

  lemma RowsAre<E(!new)>(f: Field<E>, s: Shape, rs: seq<Repair<E>>, ks: seq<nat>, ms: seq<nat>)
    requires |rs| == |ks| && forall j | 0 <= j < |ks| ::
               ks[j] in s.repairs && rs[j].id == ks[j] && rs[j].ids == s.repairs[ks[j]]
    ensures CoefficientsOf(f, rs, ms) == MatrixOf(f, s, ks, ms)
  {
    hide Entries;
  }

  // ----- one packet, from shape to shape

  /** Nothing outdated is held, and there are no repairs or fewer than missing sources. */
  ghost predicate Settled(s: Shape) {
    && (s.repairs.Keys == {} || |s.repairs.Keys| < |s.missing|)
    && (s.last.Some? ==> forall m | m in s.missing + s.sources :: s.last.value <= m)
  }

  lemma SettledIsSound<E>(d: State<E>, s: Shape)
    requires Has(d, s) && Settled(s)
    ensures Sound(d)
  {
    hide Links;
    assert forall m | m in d.missing :: m in s.missing + s.sources;
    assert forall m | m in d.sources :: m in s.missing + s.sources;
  }

  /** Several unknown sources, and room for one more repair. */
  lemma SeveralMayArrive<E>(c: State<E>, o: Shape, ids: set<nat>)
    requires Has(c, o) && Settled(o) && |ids - o.sources| >= 2 && |o.repairs.Keys| < |o.missing + (ids - o.sources)|
    ensures MayArrive(c, ids) && LoneKeepsIterators(c, ids - c.sources.Keys)
  {
    hide Links;
  }

  lemma RepairDefined<E(!new)>(f: Field<E>, d: State<E>, r: Repair<E>)
    requires Sound(d) && r.ids != {}
    requires var c := DropOutdated(d, Min(r.ids));
             MayArrive(c, r.ids) && LoneKeepsIterators(c, r.ids - c.sources.Keys)
    ensures Defined(f, d, RepairPacket(r))
  {
    hide Sound, DropOutdated, MayArrive, LoneKeepsIterators;
  }

  lemma SourceDefined<E(!new)>(f: Field<E>, d: State<E>, src: Source<E>)
    requires Sound(d) && Strippable(d, src.id) && SourceKeepsIterators(f, d, src)
    ensures Defined(f, d, SourcePacket(src))
  {
    hide Sound, Strippable, SourceKeepsIterators;
  }

  /** A repair of several unknown sources, for which there is room, leads to shape `t`. */
  ghost predicate MeetsRepair(s: Shape, id: nat, ids: set<nat>, t: Shape) {
    && Settled(s) && ids != {} && id !in s.repairs && (s.last.Some? ==> s.last.value <= Max(ids))
    && var o := Outdating(s, Min(ids));
       && t == Linking(o, id, ids) && |ids - o.sources| >= 2
       && (o.repairs.Keys == {} || |o.repairs.Keys| < |o.missing|) && |o.repairs.Keys| < |t.missing|
  }

  /** When nothing that is held is older than the first source of the repair, and none of its sources is known. */
  lemma JoinMeets(s: Shape, id: nat, ids: set<nat>, t: Shape)
    requires Settled(s) && id !in s.repairs && |ids| >= 2 && ids !! s.sources
    requires s.last.Some? ==> s.last.value <= Max(ids)
    requires forall k, x | k in s.repairs && x in s.repairs[k] :: Min(ids) <= x
    requires forall m | m in s.missing + s.sources :: Min(ids) <= m
    requires t == Shape(s.repairs[id := ids], s.missing + ids, s.sources, Some(Min(ids)))
    requires |s.repairs.Keys| < |t.missing|
    ensures MeetsRepair(s, id, ids, t)
  {
    assert forall m | m in s.missing :: m in s.missing + s.sources;
    assert forall m | m in s.sources :: m in s.missing + s.sources;
    NothingOutdated(s, Min(ids));
    assert ids - s.sources == ids;
  }

  /** When all that is held is about its sources. */
  lemma CoverMeets(s: Shape, id: nat, ids: set<nat>, t: Shape)
    requires Settled(s) && id !in s.repairs && |ids| >= 2 && s.sources == {} && s.missing <= ids
    requires s.last.Some? ==> s.last.value <= Max(ids)
    requires forall k | k in s.repairs :: s.repairs[k] <= ids
    requires t == Shape(s.repairs[id := ids], ids, {}, Some(Min(ids))) && |s.repairs.Keys| < |ids|
    ensures MeetsRepair(s, id, ids, t)
  {
    hide Settled, MeetsRepair;
    assert s.missing + ids == ids;
    assert forall m | m in s.missing + s.sources :: m in ids;
    JoinMeets(s, id, ids, t);
  }

  /** All that is held is about some of these sources. */
  ghost predicate About(s: Shape, ids: set<nat>, n: nat) {
    && s.sources == {} && s.missing <= ids && (forall k | k in s.repairs :: s.repairs[k] <= ids)
    && |s.repairs.Keys| == n
  }

  lemma AboutMeets(s: Shape, id: nat, ids: set<nat>, n: nat, t: Shape)
    requires Settled(s) && About(s, ids, n) && id !in s.repairs.Keys && |ids| >= 2 && n < |ids|
    requires s.last.Some? ==> s.last.value <= Max(ids)
    requires t == Shape(s.repairs[id := ids], ids, {}, Some(Min(ids)))
    ensures MeetsRepair(s, id, ids, t) && About(t, ids, n + 1) && t.repairs.Keys == s.repairs.Keys + {id}
    ensures n + 1 < |ids| ==> Waits(t) && Settled(t)
  {
    hide Settled, MeetsRepair;
    CoverMeets(s, id, ids, t);
    assert t.repairs.Keys == s.repairs.Keys + {id};
    if n + 1 < |ids| {
      AboutSettles(t, ids, n + 1);
    }
  }

  lemma AboutSettles(t: Shape, ids: set<nat>, n: nat)
    requires About(t, ids, n) && ids != {} && t.missing == ids && t.last == Some(Min(ids)) && n < |ids|
    ensures Waits(t) && Settled(t)
  {
  }

  lemma EmptyIs(ids: set<nat>)
    ensures About(Empty(), ids, 0) && Settled(Empty()) && Empty().repairs.Keys == {} && Empty().last == None
    ensures Empty().repairs == map[]
  {
  }

  lemma MeetsGives(s: Shape, id: nat, ids: set<nat>, t: Shape)
    requires MeetsRepair(s, id, ids, t)
    ensures Settled(s) && ids != {} && id !in s.repairs && (s.last.Some? ==> s.last.value <= Max(ids))
    ensures var o := Outdating(s, Min(ids));
            && t == Linking(o, id, ids) && |ids - o.sources| >= 2
            && (o.repairs.Keys == {} || |o.repairs.Keys| < |o.missing|) && |o.repairs.Keys| < |t.missing|
  {
  }

  /** Such a repair arrives: it is linked, and full decoding is attempted. */
  lemma RepairArrives<E(!new)>(f: Field<E>, d: State<E>, s: Shape, r: Repair<E>, t: Shape) returns (e: State<E>)
    requires Has(d, s) && MeetsRepair(s, r.id, r.ids, t)
    ensures r.ids != {} && e == Linked(f, d, r) && Has(e, t)
    ensures forall d' :: FullStep(f, e, d') ==> Takes(f, d, RepairPacket(r), d')
  {
    hide *;
    MeetsGives(s, r.id, r.ids, t);
    e := Linked(f, d, r);
    var c, o := DropOutdated(d, Min(r.ids)), Outdating(s, Min(r.ids));
    SettledIsSound(d, s);
    OutdatingHas(f, d, s, Min(r.ids));
    OutdatingSettles(s, Min(r.ids));
    LinkingIs(o, r.id, r.ids);
    SeveralMayArrive(c, o, r.ids);
    RepairDefined(f, d, r);
    NotAllKnown(r.ids, o.sources);
    LinkedHas(f, d, s, r);
    forall d' | FullStep(f, e, d')
      ensures Takes(f, d, RepairPacket(r), d')
    {
      StepLinks(f, d, s, r, d');
      RepairTaken(f, d, r, d');
    }
  }

  lemma OutdatingSettles(s: Shape, id: nat)
    requires var o := Outdating(s, id); o.repairs.Keys == {} || |o.repairs.Keys| < |o.missing|
    ensures Settled(Outdating(s, id))
  {
  }

  lemma LinkingIs(o: Shape, id: nat, ids: set<nat>)
    ensures Linking(o, id, ids).missing == o.missing + (ids - o.sources)
  {
  }

  lemma RepairTaken<E(!new)>(f: Field<E>, d: State<E>, r: Repair<E>, d': State<E>)
    requires Defined(f, d, RepairPacket(r)) && r.ids != {} && RepairStep(f, d, r, d')
    ensures Takes(f, d, RepairPacket(r), d')
  {
    hide Defined, RepairStep;
  }

  lemma SourceTaken<E(!new)>(f: Field<E>, d: State<E>, src: Source<E>, d': State<E>)
    requires Defined(f, d, SourcePacket(src)) && SourceStep(f, d, src, d')
    ensures Takes(f, d, SourcePacket(src), d')
  {
    hide Defined, SourceStep;
  }

  ghost predicate Waits(s: Shape) {
    s.repairs.Keys == {} || |s.repairs.Keys| < |s.missing|
  }

  /** With fewer repairs than missing sources, it is linked and nothing else happens. */
  lemma RepairIsLinked<E(!new)>(f: Field<E>, d: State<E>, s: Shape, r: Repair<E>, t: Shape) returns (e: State<E>)
    requires Has(d, s) && MeetsRepair(s, r.id, r.ids, t) && Waits(t)
    ensures r.ids != {} && e == Linked(f, d, r) && Has(e, t) && Takes(f, d, RepairPacket(r), e)
  {
    hide *;
    e := RepairArrives(f, d, s, r, t);
    NothingToDo(f, e, t);
  }

  lemma HasSizes<E>(d: State<E>, s: Shape)
    requires Has(d, s)
    ensures |d.missing.Keys| == |s.missing| && |d.repairs.Keys| == |s.repairs.Keys|
  {
    hide Links;
  }

  lemma NothingToDo<E(!new)>(f: Field<E>, d: State<E>, s: Shape)
    requires Has(d, s) && Waits(s)
    ensures FullStep(f, d, d)
  {
    hide Links;
  }

  ghost function Solving(s: Shape): Shape {
    Shape(map[], {}, s.sources + s.missing, s.last)
  }

  lemma {:induction false} DeliverAllKeys<E>(d: State<E>, srcs: seq<Source<E>>)
    ensures DeliverAll(d, srcs).sources.Keys == d.sources.Keys + IdsOf(srcs)
    decreases |srcs|
  {
    hide Flush;
    if srcs != [] {
      var n := |srcs| - 1;
      DeliverAllKeys(d, srcs[..n]);
      assert IdsOf(srcs) == IdsOf(srcs[..n]) + {srcs[n].id};
    }
  }

  lemma SolvedLinks<E>(d: State<E>)
    requires d.repairs == map[] && d.missing == map[]
    ensures Links(d)
  {
  }

  /** With as many repairs as missing sources, none of them redundant, every missing source is rebuilt and stored. */
  lemma SolvedHas<E(!new)>(f: Field<E>, d: State<E>, s: Shape, d': State<E>)
    requires Has(d, s) && |s.repairs.Keys| == |s.missing| > 0 && !Singular(f, Coefficients(f, d)) && FullStep(f, d, d')
    ensures Has(d', Solving(s))
  {
    hide Coefficients, Singular, LeftInverse, RebuiltAll, DeliverAll, RepairList, Sorted, Links, IdsOf, LogDistinct;
    assert |d.repairs.Keys| == |d.missing.Keys| > 0;
    var l: Matrix<E> :| Solved(f, d, d', l);
    var srcs := RebuiltAll(f, l, RepairList(d), Sorted(d.missing.Keys));
    RebuiltDistinct(f, d, l);
    DeliverAllKeys(d, srcs);
    SolvedLinks(d');
  }

  /** In order, one that is older than the source that is waited for is queued. */
  lemma SolvedQueues<E(!new)>(f: Field<E>, d: State<E>, s: Shape, d': State<E>, x: nat)
    requires Has(d, s) && |s.repairs.Keys| == |s.missing| > 0 && !Singular(f, Coefficients(f, d)) && FullStep(f, d, d')
    requires d.inOrder && x < d.firstMissing && x in s.missing
    ensures d'.inOrder && x in d'.ordered && x < d'.firstMissing
  {
    hide Coefficients, Singular, LeftInverse, RebuiltAll, DeliverAll, RepairList, Sorted, Links, Among;
    assert |d.repairs.Keys| == |d.missing.Keys| > 0 && x in d.missing.Keys;
    var l: Matrix<E> :| Solved(f, d, d', l);
    DeliverAllQueues(d, RebuiltAll(f, l, RepairList(d), Sorted(d.missing.Keys)), x);
    EveryMissingIsRebuilt(f, d, l, x);
  }

  /** A new source that makes nothing decodable leads to shape `t`. */
  ghost predicate MeetsSource(s: Shape, x: nat, t: Shape) {
    && Settled(s) && x !in s.sources && (s.last.Some? ==> s.last.value <= x)
    && (forall k | k in s.repairs :: s.repairs[k] != {x}) && Quiet(Unlinking(s, x))
    && t == Unlinking(s, x).(sources := s.sources + {x})
  }

  lemma MeetsSourceGives(s: Shape, x: nat, t: Shape)
    requires MeetsSource(s, x, t)
    ensures Settled(s) && x !in s.sources && (s.last.Some? ==> s.last.value <= x)
    ensures (forall k | k in s.repairs :: s.repairs[k] != {x}) && Quiet(Unlinking(s, x))
    ensures t == Unlinking(s, x).(sources := s.sources + {x})
  {
  }

  /** Such a source arrives: it is stored, and full decoding is attempted. */
  lemma SourceArrives<E(!new)>(f: Field<E>, d: State<E>, s: Shape, src: Source<E>, t: Shape) returns (e: State<E>)
    requires Has(d, s) && MeetsSource(s, src.id, t)
    ensures e == Added(f, d, src) && Has(e, t)
    ensures forall d' :: FullStep(f, e, d') ==> Takes(f, d, SourcePacket(src), d')
  {
    hide *;
    MeetsSourceGives(s, src.id, t);
    e := Added(f, d, src);
    SettledIsSound(d, s);
    UnlinkHas(f, d, s, src);
    QuietIsIdle(Unlink(f, d, src), Unlinking(s, src.id));
    IdleKeeps(f, d, src);
    SourceDefined(f, d, src);
    AddedHas(f, d, s, src);
    forall d' | FullStep(f, e, d')
      ensures Takes(f, d, SourcePacket(src), d')
    {
      StepAdds(f, d, s, src, d');
      SourceTaken(f, d, src, d');
    }
  }

  lemma IdleKeeps<E(!new)>(f: Field<E>, d: State<E>, src: Source<E>)
    requires ReadySet(Unlink(f, d, src)) == {}
    ensures SourceKeepsIterators(f, d, src)
  {
    NoReadyNeighbours(Unlink(f, d, src));
  }

  /** With fewer repairs than missing sources, or none, it is stored and nothing else happens. */
  lemma SourceIsStored<E(!new)>(f: Field<E>, d: State<E>, s: Shape, src: Source<E>, t: Shape) returns (e: State<E>)
    requires Has(d, s) && MeetsSource(s, src.id, t) && Waits(t)
    ensures e == Added(f, d, src) && Has(e, t) && Takes(f, d, SourcePacket(src), e)
  {
    hide *;
    e := SourceArrives(f, d, s, src, t);
    NothingToDo(f, e, t);
  }

  // ----- windows

  lemma WindowIsOne<E(!new)>(f: Field<E>, id: nat, a: Source<E>)
    ensures MakeRepair(f, id, [a]).ids == {a.id}
  {
  }

  lemma WindowIsTwo<E(!new)>(f: Field<E>, id: nat, a: Source<E>, b: Source<E>)
    ensures MakeRepair(f, id, [a, b]).ids == {a.id, b.id}
  {
    var w := [a, b];
    assert w[..1] == [a];
    WindowIsOne(f, id, a);
    assert MakeRepair(f, id, w) == ExtendRepair(f, MakeRepair(f, id, w[..1]), w[1]);
  }

  lemma WindowIsThree<E(!new)>(f: Field<E>, id: nat, a: Source<E>, b: Source<E>, c: Source<E>)
    ensures MakeRepair(f, id, [a, b, c]).ids == {a.id, b.id, c.id}
  {
    var w := [a, b, c];
    assert w[..2] == [a, b];
    WindowIsTwo(f, id, a, b);
    assert MakeRepair(f, id, w) == ExtendRepair(f, MakeRepair(f, id, w[..2]), w[2]);
  }

  lemma WindowIsFour<E(!new)>(f: Field<E>, id: nat, a: Source<E>, b: Source<E>, c: Source<E>, d: Source<E>)
    ensures MakeRepair(f, id, [a, b, c, d]).ids == {a.id, b.id, c.id, d.id}
  {
    var w := [a, b, c, d];
    assert w[..3] == [a, b, c];
    WindowIsThree(f, id, a, b, c);
    assert MakeRepair(f, id, w) == ExtendRepair(f, MakeRepair(f, id, w[..3]), w[3]);
  }
}
