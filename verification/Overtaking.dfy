/** Short runs, from an empty decoder, in which packets arrive in another order than the one in which they were sent.
    Each leads to a place where `Limits.dfy`, `SavedIterator.dfy`, `LostSources.dfy` or `Repeats.dfy` says that the code
    stops keeping its promises; up to there every packet is processed as the code says. */
module Overtaking {
  import opened Wrappers
  import opened GaloisField
  import opened LinearAlgebra
  import opened Ids
  import opened Symbols
  import opened DecoderModel
  import opened EncoderModel
  import opened Peeling
  import opened Delivery
  import opened DecoderInvariant
  import opened DecoderSteps
  import opened InOrderDelivery
  import opened NestedDecoding
  import opened SavedIterator
  import opened Processing
  import opened AnyOrder
  import opened Limits
  import opened LostSources
  import opened Repeats
  import opened Progress
  import opened Shapes

  lemma Pair(a: nat, b: nat)
    requires a < b
    ensures Min({a, b}) == a && Max({a, b}) == b && |{a, b}| == 2
  {
    MinIs({a, b}, a);
  }

  lemma HasIs<E>(d: State<E>, s: Shape)
    requires Has(d, s)
    ensures d.sources.Keys == s.sources && d.missing.Keys == s.missing && d.repairs.Keys == s.repairs.Keys && Links(d)
    ensures (forall k | k in s.repairs :: d.repairs[k].ids == s.repairs[k]) && d.lastId == s.last
  {
    hide Links;
  }

  // ----- the first repair

  ghost function One(k: nat, a: nat, b: nat): Shape {
    Shape(map[k := {a, b}], {a, b}, {}, Some(a))
  }

  lemma OneShape(k: nat, a: nat, b: nat)
    requires a < b
    ensures MeetsRepair(Empty(), k, {a, b}, One(k, a, b)) && Waits(One(k, a, b)) && Settled(One(k, a, b))
  {
    Pair(a, b);
    assert Empty().repairs[k := {a, b}] == One(k, a, b).repairs && Empty().missing + {a, b} == {a, b};
    JoinMeets(Empty(), k, {a, b}, One(k, a, b));
    assert One(k, a, b).repairs.Keys == {k};
  }

  /** The first repair to arrive, of two sources. */
  lemma FirstOfTwo<E(!new)>(f: Field<E>, inOrder: bool, r: Repair<E>, a: nat, b: nat) returns (d: State<E>)
    requires a < b && r.ids == {a, b}
    ensures Takes(f, Initial(inOrder), RepairPacket(r), d) && d == Linked(f, Initial(inOrder), r)
    ensures Has(d, One(r.id, a, b))
  {
    hide *;
    InitialHas<E>(inOrder);
    OneShape(r.id, a, b);
    d := RepairIsLinked(f, Initial(inOrder), Empty(), r, One(r.id, a, b));
  }

  lemma NextShape(s: Shape, k: nat, a: nat, b: nat)
    requires s.repairs == map[] && s.missing == {} && Settled(s) && a < b
    requires (forall m | m in s.sources :: m < a) && (s.last.Some? ==> s.last.value <= b)
    ensures MeetsRepair(s, k, {a, b}, One(k, a, b)) && Waits(One(k, a, b))
  {
    Pair(a, b);
    OneShape(k, a, b);
    AllOutdated(s, a);
    var o := Shape(map[], {}, {}, Some(a));
    assert {a, b} - o.sources == {a, b};
    assert Linking(o, k, {a, b}).repairs == One(k, a, b).repairs && Linking(o, k, {a, b}).missing == {a, b};
  }

  lemma HoldsNothing(s: Shape)
    requires s.repairs == map[]
    ensures s.repairs.Keys == {}
  {
  }

  /** A decoder that holds sources only receives a repair of two later ones: everything it holds is outdated, and what
      was queued below the source it waits for is handed over. */
  lemma NextWindow<E(!new)>(f: Field<E>, d: State<E>, s: Shape, r: Repair<E>, a: nat, b: nat) returns (d': State<E>)
    requires Has(d, s) && s.repairs == map[] && s.missing == {} && Settled(s) && a < b && r.ids == {a, b}
    requires (forall m | m in s.sources :: m < a) && (s.last.Some? ==> s.last.value <= b)
    ensures Takes(f, d, RepairPacket(r), d') && d' == Linked(f, d, r) && Has(d', One(r.id, a, b)) && d.log <= d'.log
    ensures d.inOrder ==> forall x | x in d.ordered && x < a && x < d.firstMissing :: InLog(d'.log[|d.log|..], x)
  {
    hide *;
    NextShape(s, r.id, a, b);
    d' := RepairIsLinked(f, d, s, r, One(r.id, a, b));
    LinkedForward(f, d, r);
    Pair(a, b);
    NotOld(d, s, b);
    HoldsNothing(s);
    HasIs(d, s);
    if d.inOrder {
      forall x | x in d.ordered && x < a && x < d.firstMissing
        ensures InLog(d'.log[|d.log|..], x)
      {
        QueuedComesOut(f, d, r, d', x);
      }
    }
  }

  lemma QueuedComesOut<E(!new)>(f: Field<E>, d: State<E>, r: Repair<E>, d': State<E>, x: nat)
    requires d.inOrder && x in d.ordered && x < d.firstMissing && Takes(f, d, RepairPacket(r), d')
    requires r.ids != {} && !IsOld(d, Max(r.ids)) && r.id !in d.repairs.Keys && x < Min(r.ids)
    ensures d.log <= d'.log && InLog(d'.log[|d.log|..], x)
  {
    hide Takes, InLog, IsOld;
    OlderHandedOverExactly(f, d, RepairPacket(r), d', x);
  }

  lemma LinkedForward<E(!new)>(f: Field<E>, d: State<E>, r: Repair<E>)
    requires r.ids != {}
    ensures var e := Linked(f, d, r);
            && e.inOrder == d.inOrder && d.log <= e.log && d.firstMissing <= e.firstMissing
            && (d.inOrder ==> Min(r.ids) <= e.firstMissing)
  {
    hide StripKnown;
    if d.inOrder {
      FlushForward(HandOver(DropRepairs(d, Min(r.ids)), Min(r.ids)));
    }
  }

  // ----- two decodable neighbours

  ghost function Middle(): Shape {
    Shape(map[2 := {1, 2}, 1 := {0, 1}], {0, 1, 2}, {}, Some(0))
  }

  lemma MiddleShape()
    ensures MeetsRepair(One(2, 1, 2), 1, {0, 1}, Middle()) && Waits(Middle())
    ensures Middle().last == Some(0) && Middle().sources == {}
  {
    var s, t := One(2, 1, 2), Middle();
    OneShape(2, 1, 2);
    Pair(0, 1);
    assert s.repairs.Keys == {2} && t.repairs.Keys == {1, 2} && s.missing + {0, 1} == {0, 1, 2};
    assert |{2}| == 1 && |{1, 2}| == 2 && |{0, 1, 2}| == 3;
    JoinMeets(s, 1, {0, 1}, t);
  }

  ghost function Ends(): Shape {
    Shape(map[2 := {2}, 1 := {0}], {0, 2}, {}, Some(0))
  }

  lemma EndsShape()
    ensures Unlinking(Middle(), 1) == Ends() && (forall k | k in Middle().repairs :: Middle().repairs[k] != {1})
  {
    assert {1, 2} - {1} == {2} && {0, 1} - {1} == {0} && {0, 1, 2} - {1} == {0, 2};
    assert Unlinking(Middle(), 1).repairs == Ends().repairs;
    assert 2 in Middle().repairs[2] && 0 in Middle().repairs[1];
  }

  lemma EndsReady<E>(u: State<E>)
    requires Has(u, Ends())
    ensures ReadyNeighbours(u)
  {
    hide Ready, Links;
    LoneIsReady(u, Ends(), 1, 0);
    LoneIsReady(u, Ends(), 2, 2);
    assert u.missing.Keys == {0, 2};
    assert Neighbours(u, 0, 2);
  }

  /** With a window of two sources and a repair after each, the repair of 1 and 2 overtakes that of 0 and 1, and both
      overtake source 1. When it comes, decoding source 0 erases the entry of source 2, to which the outer loop has
      saved an iterator: the call has no result, in order or not. */
  lemma IteratorErased<E(!new)>(f: Field<E>, inOrder: bool, a: Source<E>, b: Source<E>, c: Source<E>)
    returns (d1: State<E>, d2: State<E>)
    requires a.id == 0 && b.id == 1 && c.id == 2
    ensures Takes(f, Initial(inOrder), RepairPacket(MakeRepair(f, 2, [b, c])), d1)
    ensures Takes(f, d1, RepairPacket(MakeRepair(f, 1, [a, b])), d2)
    ensures !IsOld(d2, b.id) && b.id !in d2.sources && Strippable(d2, b.id)
    ensures AddSaved(f, d2, b) == None
  {
    hide *;
    var p, q := MakeRepair(f, 2, [b, c]), MakeRepair(f, 1, [a, b]);
    WindowIsTwo(f, 2, b, c);
    WindowIsTwo(f, 1, a, b);
    d1 := FirstOfTwo(f, inOrder, p, 1, 2);
    MiddleShape();
    d2 := RepairIsLinked(f, d1, One(2, 1, 2), q, Middle());
    HasIs(d2, Middle());
    NotOld(d2, Middle(), 1);
    EndsShape();
    UnlinkHas(f, d2, Middle(), b);
    EndsReady(Unlink(f, d2, b));
    AddSavedExactly(f, d2, b);
    assert b.id !in d2.sources.Keys;
  }

  // ----- a repair that is held with a single source

  ghost function Four(): Shape {
    Shape(map[0 := {0, 1}, 1 := {0, 1, 2, 3}], {0, 1, 2, 3}, {}, Some(0))
  }

  lemma FourIs()
    ensures var ids := {0, 1, 2, 3}; Min(ids) == 0 && Max(ids) == 3 && |ids| == 4 && About(One(0, 0, 1), ids, 1)
    ensures Four() == Shape(One(0, 0, 1).repairs[1 := {0, 1, 2, 3}], {0, 1, 2, 3}, {}, Some(0))
    ensures One(0, 0, 1).repairs.Keys == {0} && One(0, 0, 1).last == Some(0)
  {
    MinIs({0, 1, 2, 3}, 0);
    assert One(0, 0, 1).repairs.Keys == {0} && |{0}| == 1;
  }

  lemma FourShape()
    ensures MeetsRepair(One(0, 0, 1), 1, {0, 1, 2, 3}, Four()) && Waits(Four()) && Settled(Four())
  {
    hide *;
    OneShape(0, 0, 1);
    FourIs();
    AboutMeets(One(0, 0, 1), 1, {0, 1, 2, 3}, 1, Four());
  }

  ghost function Alone(): Shape {
    Shape(map[0 := {0}, 1 := {0, 2, 3}], {0, 2, 3}, {1}, Some(0))
  }

  lemma WithoutOne()
    ensures Unlinking(Four(), 1) == Alone().(sources := {})
    ensures forall k | k in Four().repairs :: Four().repairs[k] != {1}
  {
    assert {0, 1} - {1} == {0} && {0, 1, 2, 3} - {1} == {0, 2, 3};
    assert Unlinking(Four(), 1).repairs == Alone().repairs;
    assert 0 in Four().repairs[0] && 0 in Four().repairs[1];
  }

  lemma AloneIsQuiet()
    ensures Quiet(Alone().(sources := {}))
  {
    assert 0 in Alone().repairs[1] && 2 in Alone().repairs[1];
  }

  lemma AloneShape()
    ensures MeetsSource(Four(), 1, Alone()) && Waits(Alone())
    ensures Alone().last == Some(0) && Alone().sources == {1} && 0 in Alone().repairs && Alone().repairs[0] == {0}
  {
    FourShape();
    WithoutOne();
    AloneIsQuiet();
    hide Unlinking, Quiet;
    assert Alone().repairs.Keys == {0, 1} && |{0, 1}| == 2 && |{0, 2, 3}| == 3;
  }

  /** The repairs of the first two and the first four sources overtake them, and source 1 comes before source 0.
      Then the first repair is held with source 0 alone, which has a second link, so when source 0 arrives the
      assertion that a repair encodes more than the source removed from it fails, and an empty repair remains. */
  lemma HeldAlone<E(!new)>(f: Field<E>, inOrder: bool, w: seq<Source<E>>)
    returns (d1: State<E>, d2: State<E>, d3: State<E>)
    requires |w| == 4 && w[0].id == 0 && w[1].id == 1 && w[2].id == 2 && w[3].id == 3
    ensures Takes(f, Initial(inOrder), RepairPacket(MakeRepair(f, 0, [w[0], w[1]])), d1)
    ensures Takes(f, d1, RepairPacket(MakeRepair(f, 1, [w[0], w[1], w[2], w[3]])), d2)
    ensures Takes(f, d2, SourcePacket(w[1]), d3)
    ensures !IsOld(d3, 0) && 0 !in d3.sources && !Strippable(d3, 0)
    ensures !Links(Unlink(f, d3, w[0]))
  {
    hide *;
    var p, q := MakeRepair(f, 0, [w[0], w[1]]), MakeRepair(f, 1, [w[0], w[1], w[2], w[3]]);
    WindowIsTwo(f, 0, w[0], w[1]);
    WindowIsFour(f, 1, w[0], w[1], w[2], w[3]);
    d1 := FirstOfTwo(f, inOrder, p, 0, 1);
    FourShape();
    d2 := RepairIsLinked(f, d1, One(0, 0, 1), q, Four());
    AloneShape();
    d3 := SourceIsStored(f, d2, Four(), w[1], Alone());
    HasIs(d3, Alone());
    NotOld(d3, Alone(), 0);
    NotStrippable(d3, 0, 0);
    UnlinkExactly(f, d3, w[0]);
    assert 0 !in d3.sources.Keys;
  }

  lemma NotStrippable<E>(d: State<E>, k: nat, s: nat)
    requires k in d.repairs.Keys && d.repairs[k].ids == {s}
    ensures !Strippable(d, s)
  {
  }

  // ----- a repair that arrives with a single source, which another one encodes

  /** A repair of one unknown source is used up at once. */
  lemma LoneStep<E(!new)>(f: Field<E>, d: State<E>, s: Shape, r: Repair<E>, x: nat) returns (c: State<E>, d': State<E>)
    requires Has(d, s) && r.ids == {x} && r.id !in s.repairs && (s.last.Some? ==> s.last.value <= x) && x !in s.sources
    ensures c == DropOutdated(d, x) && Has(c, Outdating(s, x)) && r.id !in c.repairs && x !in c.sources
    ensures d' == Add(f, Take(Link(c, r), x, r.id), Create(f, r)) && RepairStep(f, d, r, d')
  {
    hide *;
    c := DropOutdated(d, x);
    OutdatingHas(f, d, s, x);
    NotOld(d, s, x);
    HasIs(d, s);
    DropOutdatedShrinks(d, x);
    OutdatingIs(d, x);
    assert r.id !in d.repairs.Keys && r.id !in c.repairs.Keys && x !in c.sources.Keys;
    d' := Add(f, Take(Link(c, r), x, r.id), Create(f, r));
    LoneIs(f, d, r, x);
  }

  lemma LoneIs<E(!new)>(f: Field<E>, d: State<E>, r: Repair<E>, x: nat)
    requires r.ids == {x} && !IsOld(d, x) && r.id !in d.repairs && x !in DropOutdated(d, x).sources
    ensures RepairStep(f, d, r, Add(f, Take(Link(DropOutdated(d, x), r), x, r.id), Create(f, r)))
  {
    hide DropOutdated, Add, Take, Link, Create;
    MinIs(r.ids, x);
    assert Max(r.ids) == x && |r.ids| == 1;
    var c := DropOutdated(d, x);
    assert r.ids * c.sources.Keys == {} && StripKnown(f, r, c.sources, {}) == r;
  }

  lemma OneStays()
    ensures Outdating(One(1, 0, 1), 0) == One(1, 0, 1)
  {
    NothingOutdated(One(1, 0, 1), 0);
  }

  /** The source is not missing any more, so it is not removed from the other repair. */
  lemma NotUnlinked<E(!new)>(f: Field<E>, c: State<E>, r: Repair<E>)
    requires Has(c, One(1, 0, 1)) && r.ids == {0} && r.id == 0
    ensures var a := Add(f, Take(Link(c, r), 0, 0), Create(f, r));
            1 in a.repairs && 0 in a.repairs[1].ids && 0 in a.sources && 0 !in a.missing
  {
    var t, src := Take(Link(c, r), 0, 0), Create(f, r);
    HasIs(c, One(1, 0, 1));
    assert 0 !in c.repairs.Keys && 0 !in c.sources.Keys && 1 in c.repairs.Keys;
    LinkThenTake(c, r, 0);
    CreateId(f, r, 0);
    hide Link, Take, Create;
    var n := Announce(t, src);
    assert 0 !in t.missing.Keys && n.missing == t.missing && Unlink(f, n, src) == n;
    assert |{0, 1}| == 2;
    OneHasTwo(c, t, n);
    hide Announce, Links, Ready, Unlink;
    ScanIdle(f, n, 0);
  }

  lemma OneHasTwo<E>(c: State<E>, t: State<E>, n: State<E>)
    requires Has(c, One(1, 0, 1)) && t.repairs == c.repairs && t.missing.Keys == c.missing.Keys - {0}
    requires forall m | m in t.missing :: t.missing[m] == c.missing[m]
    requires n.repairs == t.repairs && n.missing == t.missing
    ensures ReadySet(n) == {}
  {
    assert |{0, 1}| == 2;
    forall y | y in n.missing
      ensures !Ready(n, y)
    {
      assert y in c.missing.Keys && y == 1;
      forall k | k in c.missing[1]
        ensures k == 1
      {
        assert k in c.repairs.Keys;
      }
    }
  }

  /** The repair of the first two sources overtakes the repair of the first one. Source 0 is decoded from the latter
      and stored, but the former still lists it, and always will: the links are broken. */
  lemma StillListed<E(!new)>(f: Field<E>, inOrder: bool, a: Source<E>, b: Source<E>)
    returns (d1: State<E>, d2: State<E>)
    requires a.id == 0 && b.id == 1
    ensures Takes(f, Initial(inOrder), RepairPacket(MakeRepair(f, 1, [a, b])), d1)
    ensures MakeRepair(f, 0, [a]).ids != {} && RepairStep(f, d1, MakeRepair(f, 0, [a]), d2)
    ensures 1 in d2.repairs && 0 in d2.repairs[1].ids && 0 in d2.sources && 0 !in d2.missing
    ensures !Links(d2)
  {
    hide *;
    var p, q := MakeRepair(f, 1, [a, b]), MakeRepair(f, 0, [a]);
    WindowIsTwo(f, 1, a, b);
    WindowIsOne(f, 0, a);
    d1 := FirstOfTwo(f, inOrder, p, 0, 1);
    OneIs();
    var c: State<E>;
    c, d2 := LoneStep(f, d1, One(1, 0, 1), q, 0);
    OneStays();
    NotUnlinked(f, c, q);
    ListsStored(d2);
  }

  lemma OneIs()
    ensures 0 !in One(1, 0, 1).repairs && One(1, 0, 1).last == Some(0) && One(1, 0, 1).sources == {}
  {
  }

  lemma ListsStored<E>(d: State<E>)
    requires 1 in d.repairs && 0 in d.repairs[1].ids && 0 in d.sources
    ensures !Links(d)
  {
  }

  // ----- a source that is received and not handed over

  lemma EmptyOutdated<E>()
    ensures DropOutdated(Initial<E>(true), 0) == Initial(true).(lastId := Some(0))
  {
    var d := DropRepairs(Initial<E>(true), 0);
    assert d == Initial(true).(lastId := Some(0));
    assert (set s | s in d.ordered && s < 0) == {};
    assert Deliveries(Sorted({}), d.sources) == [];
    assert HandOver(d, 0) == d;
  }

  lemma FirstDelivery<E(!new)>(f: Field<E>, r: Repair<E>)
    requires r.ids == {0, 1}
    ensures var d := Linked(f, Initial(true), r);
            && d.inOrder && d.firstMissing == 0 && d.ordered == {} && d.log == [] && d.sources == map[]
  {
    MinIs(r.ids, 0);
    EmptyOutdated<E>();
    hide DropOutdated, StripKnown;
  }

  lemma FirstTaken<E(!new)>(f: Field<E>, r: Repair<E>, d: State<E>)
    requires r.ids == {0, 1} && Takes(f, Initial(true), RepairPacket(r), d)
    ensures RepairStep(f, Initial(true), r, d) && MayArrive(DropOutdated(Initial<E>(true), Min(r.ids)), r.ids)
    ensures Low(Initial<E>(true)) <= Min(r.ids) && Balanced(Initial<E>(true))
  {
    hide RepairStep, DropOutdated, MayArrive, RepairKeepsIterators, Sound;
    assert !IsOld(Initial<E>(true), Max(r.ids)) && r.id !in Initial<E>(true).repairs;
  }

  lemma NothingStored<E>(d: State<E>)
    requires d.inOrder && d.ordered == {} && d.sources == map[]
    ensures Complete(d)
  {
  }

  /** The decoder after a right repair of the first two sources has arrived, and nothing else. */
  lemma FirstGood<E(!new)>(f: Field<E>, truth: Truth<E>, r: Repair<E>, d: State<E>)
    requires f.Laws() && TruthOk(f, truth) && RepairOk(f, truth, r) && r.ids == {0, 1}
    requires Takes(f, Initial(true), RepairPacket(r), d) && d == Linked(f, Initial(true), r)
    ensures Good(f, truth, d, {}) && Complete(d)
  {
    hide *;
    InitialGood(f, truth, true);
    FirstDelivery(f, r);
    FirstTaken(f, r, d);
    RepairStepGood(f, truth, Initial(true), r, d);
    NothingStored(d);
  }

  ghost function Left(): Shape {
    Shape(map[0 := {0}], {0}, {}, Some(0))
  }

  lemma LeftShape()
    ensures Unlinking(One(0, 0, 1), 1) == Left()
    ensures forall k | k in One(0, 0, 1).repairs :: One(0, 0, 1).repairs[k] != {1}
  {
    assert {0, 1} - {1} == {0};
    assert Unlinking(One(0, 0, 1), 1).repairs == Left().repairs;
    assert 0 in One(0, 0, 1).repairs[0];
  }

  lemma LeftReady<E>(u: State<E>)
    requires Has(u, Left())
    ensures ReadySet(u) == {0} && UsedSet(u) == {0} && !ReadyNeighbours(u)
  {
    HasIs(u, Left());
    LoneIsReady(u, Left(), 0, 0);
    hide Ready, Links, UsedUp;
    assert forall y | y in u.missing.Keys :: y == 0;
    assert forall k | k in u.repairs.Keys :: k == 0;
  }

  lemma LowIs<E>(d: State<E>, id: nat)
    requires d.lastId == Some(id)
    ensures Low(d) == id
  {
  }

  lemma PassesOver<E(!new)>(f: Field<E>, d: State<E>, src: Source<E>)
    requires d.inOrder && d.firstMissing == 0 && src.id == 1 && ReadySet(Unlink(f, d, src)) == {0}
    ensures PassedOver(f, d, src)
  {
    hide Unlink, ReadySet;
  }

  lemma OneHolds(k: nat)
    ensures One(k, 0, 1).last == Some(0) && One(k, 0, 1).sources == {} && One(k, 0, 1).repairs.Keys == {k}
  {
  }

  /** The second source makes the first one decodable, and is passed over. */
  lemma SecondIsLost<E(!new)>(f: Field<E>, truth: Truth<E>, d: State<E>, src: Source<E>)
    requires f.Laws() && TruthOk(f, truth) && Good(f, truth, d, {}) && Complete(d) && Has(d, One(0, 0, 1))
    requires src.id == 1 && 1 in truth && truth[1] == src.data && d.inOrder && d.firstMissing == 0
    ensures var a := Add(f, d, src); Lost(a, 1) && a.firstMissing == 1
    ensures Strippable(d, 1) && ReadySet(Unlink(f, d, src)) == {0} && UsedSet(Unlink(f, d, src)) == {0}
    ensures !ReadyNeighbours(Unlink(f, d, src)) && Has(Unlink(f, d, src), Left())
  {
    hide *;
    LeftShape();
    UnlinkHas(f, d, One(0, 0, 1), src);
    LeftReady(Unlink(f, d, src));
    HasIs(d, One(0, 0, 1));
    OneHolds(0);
    LowIs(d, 0);
    assert 1 !in d.sources.Keys;
    PassesOver(f, d, src);
    PassedOverIsStuck(f, truth, d, src);
    PassedOverIsLost(f, truth, d, src);
  }

  ghost function Both(): Shape {
    Shape(map[], {}, {0, 1}, Some(0))
  }

  lemma NothingLeft<E>(a: State<E>)
    requires Links(a) && a.repairs.Keys == {} && a.missing.Keys == {} && a.sources.Keys == {0, 1} && a.lastId == Some(0)
    ensures Has(a, Both())
  {
    hide Links;
  }

  /** Then the decoder holds both sources, and nothing else. */
  lemma BothStored<E(!new)>(f: Field<E>, d: State<E>, src: Source<E>)
    requires Has(d, One(0, 0, 1)) && src.id == 1 && Strippable(d, 1) && Has(Unlink(f, d, src), Left())
    requires ReadySet(Unlink(f, d, src)) == {0} && UsedSet(Unlink(f, d, src)) == {0}
    ensures Has(Add(f, d, src), Both())
  {
    hide *;
    var u, a := Unlink(f, d, src), Add(f, d, src);
    HasIs(u, Left());
    HasIs(d, One(0, 0, 1));
    OneHolds(0);
    LeftHolds();
    AddKeys(f, d, src);
    AddStillLinks(f, d, src);
    NothingLeft(a);
  }

  lemma LeftHolds()
    ensures Left().repairs.Keys == {0} && Left().missing == {0}
  {
  }

  lemma SecondTaken<E(!new)>(f: Field<E>, d: State<E>, src: Source<E>)
    requires Has(d, One(0, 0, 1)) && src.id == 1 && Strippable(d, 1) && !ReadyNeighbours(Unlink(f, d, src))
    requires Has(Add(f, d, src), Both())
    ensures Takes(f, d, SourcePacket(src), Add(f, d, src))
  {
    hide *;
    OneShape(0, 0, 1);
    SettledIsSound(d, One(0, 0, 1));
    BothWaits();
    NothingToDo(f, Add(f, d, src), Both());
    SecondSteps(f, d, src);
  }

  lemma BothWaits()
    ensures Waits(Both()) && Settled(Both()) && Both().last == Some(0) && Both().sources == {0, 1}
    ensures Both().repairs == map[] && Both().missing == {}
  {
  }

  lemma SecondSteps<E(!new)>(f: Field<E>, d: State<E>, src: Source<E>)
    requires Has(d, One(0, 0, 1)) && src.id == 1 && Strippable(d, 1) && !ReadyNeighbours(Unlink(f, d, src))
    requires Sound(d) && FullStep(f, Add(f, d, src), Add(f, d, src))
    ensures Takes(f, d, SourcePacket(src), Add(f, d, src))
  {
    HasIs(d, One(0, 0, 1));
    assert 1 !in d.sources.Keys;
    hide Sound, FullStep, Add, Strippable, ReadyNeighbours, Has, Unlink;
  }

  lemma RepairOfTwo<E(!new)>(f: Field<E>, truth: Truth<E>, a: seq<E>, b: seq<E>) returns (r: Repair<E>)
    requires f.Laws() && 0 < |a| <= f.maxSize && 0 < |b| <= f.maxSize && truth == map[0 := a, 1 := b]
    ensures r == MakeRepair(f, 0, [Source(0, a), Source(1, b)])
    ensures TruthOk(f, truth) && RepairOk(f, truth, r) && r.ids == {0, 1}
  {
    hide MakeRepair, RepairOk;
    r := MakeRepair(f, 0, [Source(0, a), Source(1, b)]);
    MakeRepairOk(f, truth, 0, [Source(0, a), Source(1, b)]);
    WindowIsTwo(f, 0, Source(0, a), Source(1, b));
  }

  /** Two sources are committed; the first is lost, and a repair of both overtakes the second. The decoder then
      has both, but the second is lost. */
  lemma LateSource<E(!new)>(f: Field<E>, a: seq<E>, b: seq<E>) returns (d1: State<E>, d2: State<E>)
    requires f.Laws() && 0 < |a| <= f.maxSize && 0 < |b| <= f.maxSize
    ensures Takes(f, Initial(true), RepairPacket(MakeRepair(f, 0, [Source(0, a), Source(1, b)])), d1)
    ensures Takes(f, d1, SourcePacket(Source(1, b)), d2)
    ensures Has(d2, Both()) && Lost(d2, 1) && d2.firstMissing == 1
  {
    hide *;
    var truth, src := map[0 := a, 1 := b], Source(1, b);
    var r := RepairOfTwo(f, truth, a, b);
    d1 := FirstOfTwo(f, true, r, 0, 1);
    FirstGood(f, truth, r, d1);
    FirstDelivery(f, r);
    SecondIsLost(f, truth, d1, src);
    BothStored(f, d1, src);
    SecondTaken(f, d1, src);
    d2 := Add(f, d1, src);
  }

  /** Whatever arrives afterwards for which the code is defined, the second source is not handed over, provided that no
      repair that lists it is processed once it has been erased. */
  lemma LateSourceIsLost<E(!new)>(f: Field<E>, a: seq<E>, b: seq<E>) returns (d1: State<E>, d2: State<E>)
    requires f.Laws() && 0 < |a| <= f.maxSize && 0 < |b| <= f.maxSize
    ensures Takes(f, Initial(true), RepairPacket(MakeRepair(f, 0, [Source(0, a), Source(1, b)])), d1)
    ensures Takes(f, d1, SourcePacket(Source(1, b)), d2)
    ensures d2.sources.Keys == {0, 1} && d2.firstMissing == 1
    ensures forall ds: seq<State<E>>, ps: seq<Packet<E>>, i: nat |
              Continues(f, ds, ps) && NeverAsked(ds, ps, 1) && ds[0] == d2 && i < |ds| :: !InLog(ds[i].log, 1)
  {
    hide *;
    d1, d2 := LateSource(f, a, b);
    HasIs(d2, Both());
    BothWaits();
    forall ds: seq<State<E>>, ps: seq<Packet<E>>, i: nat |
      Continues(f, ds, ps) && NeverAsked(ds, ps, 1) && |ds| > 0 && ds[0] == d2 && i < |ds|
      ensures !InLog(ds[i].log, 1)
    {
      StaysLost(f, ds, ps, 1, i);
    }
  }

  // ----- a source that is handed over twice

  ghost function Zero(): Shape {
    Shape(map[], {}, {0}, None)
  }

  ghost function Twice(): Shape {
    Shape(map[2 := {1}, 1 := {0, 1}], {0, 1}, {2}, Some(0))
  }

  lemma ZeroShape()
    ensures MeetsSource(Empty(), 0, Zero()) && Waits(Zero())
    ensures Settled(Zero()) && Zero().repairs == map[] && Zero().missing == {} && Zero().sources == {0}
    ensures Zero().last == None
  {
    assert Unlinking(Empty(), 0).repairs == map[];
  }

  lemma WithoutTwo()
    ensures Unlinking(Middle(), 2) == Twice().(sources := {}) && Quiet(Twice().(sources := {}))
    ensures forall k | k in Middle().repairs :: Middle().repairs[k] != {2}
  {
    assert {1, 2} - {2} == {1} && {0, 1} - {2} == {0, 1} && {0, 1, 2} - {2} == {0, 1};
    assert Unlinking(Middle(), 2).repairs == Twice().repairs;
    assert 1 in Middle().repairs[2] && 0 in Middle().repairs[1] && 1 in Twice().repairs[1] && 0 in Twice().repairs[1];
  }

  lemma TwiceShape()
    ensures MeetsSource(Middle(), 2, Twice())
    ensures |Twice().repairs.Keys| == 2 && |Twice().missing| == 2 && 0 in Twice().missing && 0 !in Twice().sources
  {
    MiddleShape();
    WithoutTwo();
    MiddleSettled();
    hide Unlinking, Quiet;
    assert Twice().repairs.Keys == {1, 2} && |{1, 2}| == 2 && |{0, 1}| == 2;
  }

  lemma MiddleSettled()
    ensures Settled(Middle())
  {
    assert Middle().repairs.Keys == {1, 2} && |{1, 2}| == 2 && |{0, 1, 2}| == 3;
  }

  lemma SortedPair(a: nat, b: nat)
    requires a < b
    ensures Sorted({a, b}) == [a, b]
  {
    SortedUnfolds({a, b}, a);
    assert {a, b} - {a} == {b} && {b} - {b} == {};
    SortedUnfolds({b}, b);
    NothingSorted();
  }

  lemma TwiceMatrix<E(!new)>(f: Field<E>)
    ensures 1 in Twice().repairs && 2 in Twice().repairs
    ensures MatrixOf(f, Twice(), [1, 2], [0, 1])
         == [[f.Coefficient(1, 0), f.Coefficient(1, 1)], [f.zero, f.Coefficient(2, 1)]]
  {
    var a := MatrixOf(f, Twice(), [1, 2], [0, 1]);
    assert a[0] == [f.Coefficient(1, 0), f.Coefficient(1, 1)] && a[1] == [f.zero, f.Coefficient(2, 1)];
  }

  lemma TwiceKeys()
    ensures Sorted(Twice().repairs.Keys) == [1, 2] && Sorted(Twice().missing) == [0, 1]
  {
    assert Twice().repairs.Keys == {1, 2};
    SortedPair(1, 2);
    SortedPair(0, 1);
  }

  lemma ReadsThem<E(!new)>(f: Field<E>)
    requires f.Laws()
    ensures f.ReadsIntegers()
  {
  }

  /** The repair of both and that of one are independent, whatever the coefficients. */
  lemma TwiceIsRegular<E(!new)>(f: Field<E>, e: State<E>)
    requires f.Laws() && Has(e, Twice())
    ensures !Singular(f, Coefficients(f, e))
  {
    hide *;
    TwiceKeys();
    TwiceMatrix(f);
    MatrixIs(f, e, Twice(), [1, 2], [0, 1]);
    ReadsThem(f);
    f.CoefficientNonZero(1, 0);
    f.CoefficientNonZero(2, 1);
    TriangleIsRegular(f, Coefficients(f, e), f.Coefficient(1, 0), f.Coefficient(1, 1), f.Coefficient(2, 1));
  }

  lemma TriangleIsRegular<E(!new)>(f: Field<E>, a: Matrix<E>, x: E, y: E, z: E)
    requires f.Laws() && a == [[x, y], [f.zero, z]] && x != f.zero && z != f.zero
    ensures !Singular(f, a)
  {
    forall v: seq<E> | |v| == 2 && InKernel(f, a, v)
      ensures v[0] == f.zero && v[1] == f.zero
    {
      assert Dot(f, a[1], v) == f.zero && Dot(f, a[0], v) == f.zero;
      DotOfTwo(f, f.zero, z, v);
      DotOfTwo(f, x, y, v);
      f.MulZero(v[0]);
      f.AddZero(f.mul(z, v[1]));
      f.MulInv(z, v[1]);
      f.MulZero(f.inv(z));
      f.MulZero(y);
      f.AddZero(f.mul(x, v[0]));
      f.MulInv(x, v[0]);
      f.MulZero(f.inv(x));
    }
  }

  lemma FirstAdded<E(!new)>(f: Field<E>, inOrder: bool, a: Source<E>)
    requires a.id == 0
    ensures var d := Added(f, Initial(inOrder), a);
            InLog(d.log, 0) && d.inOrder == inOrder && (inOrder ==> d.firstMissing == 1)
  {
    var d := Added(f, Initial(inOrder), a);
    assert d.log == [a];
    assert d.log[0].id == 0;
  }

  lemma AddedForward<E(!new)>(f: Field<E>, d: State<E>, src: Source<E>)
    ensures var e := Added(f, d, src); e.inOrder == d.inOrder && d.firstMissing <= e.firstMissing
  {
    if d.inOrder {
      AnnounceForward(d, src);
    }
  }

  /** With a window of two sources and a repair after each: the repair of 1 and 2 outdates source 0, which was handed
      over; the delayed repair of 0 and 1 moves the bound back, so that source 0 is missing again; and with source 2
      full decoding rebuilds it, for any field. */
  lemma RebuiltAgain<E(!new)>(f: Field<E>, inOrder: bool, a: Source<E>, b: Source<E>, c: Source<E>)
    returns (d1: State<E>, d2: State<E>, d3: State<E>, e: State<E>, d4: State<E>)
    requires f.Laws() && a.id == 0 && b.id == 1 && c.id == 2
    ensures Takes(f, Initial(inOrder), SourcePacket(a), d1)
    ensures Takes(f, d1, RepairPacket(MakeRepair(f, 2, [b, c])), d2)
    ensures Takes(f, d2, RepairPacket(MakeRepair(f, 1, [a, b])), d3)
    ensures Takes(f, d3, SourcePacket(c), d4) && e == Added(f, d3, c) && Has(e, Twice()) && FullStep(f, e, d4)
    ensures Has(d3, Middle()) && InLog(d3.log, 0) && d3.inOrder == inOrder && (inOrder ==> 0 < d3.firstMissing)
  {
    hide *;
    var p, q := MakeRepair(f, 2, [b, c]), MakeRepair(f, 1, [a, b]);
    WindowIsTwo(f, 2, b, c);
    WindowIsTwo(f, 1, a, b);
    InitialHas<E>(inOrder);
    ZeroShape();
    d1 := SourceIsStored(f, Initial(inOrder), Empty(), a, Zero());
    FirstAdded(f, inOrder, a);
    d2 := NextWindow(f, d1, Zero(), p, 1, 2);
    LinkedForward(f, d1, p);
    PrefixInLog(d1.log, d2.log, 0);
    MiddleShape();
    d3 := RepairIsLinked(f, d2, One(2, 1, 2), q, Middle());
    LinkedForward(f, d2, q);
    PrefixInLog(d2.log, d3.log, 0);
    TwiceShape();
    e := SourceArrives(f, d3, Middle(), c, Twice());
    HasSizes(e, Twice());
    d4 := FullStepExists(f, e);
  }

  lemma TwiceSolved()
    ensures Solving(Twice()) == Shape(map[], {}, {0, 1, 2}, Some(0)) && Settled(Solving(Twice()))
  {
  }

  /** So source 0 is handed over a second time: at once without order, and in order as soon as a later repair outdates
      it once more. */
  lemma HandedOverTwice<E(!new)>(f: Field<E>, inOrder: bool, w: seq<Source<E>>)
    returns (d1: State<E>, d2: State<E>, d3: State<E>, d4: State<E>, d5: State<E>)
    requires f.Laws() && |w| == 5 && forall k | 0 <= k < 5 :: w[k].id == k
    ensures Takes(f, Initial(inOrder), SourcePacket(w[0]), d1)
    ensures Takes(f, d1, RepairPacket(MakeRepair(f, 2, [w[1], w[2]])), d2)
    ensures Takes(f, d2, RepairPacket(MakeRepair(f, 1, [w[0], w[1]])), d3)
    ensures Takes(f, d3, SourcePacket(w[2]), d4)
    ensures Takes(f, d4, RepairPacket(MakeRepair(f, 4, [w[3], w[4]])), d5)
    ensures InLog(d3.log, 0) && d3.log <= d4.log <= d5.log
    ensures if inOrder then InLog(d5.log[|d4.log|..], 0) else InLog(d4.log[|d3.log|..], 0)
  {
    hide *;
    var e: State<E>;
    d1, d2, d3, e, d4 := RebuiltAgain(f, inOrder, w[0], w[1], w[2]);
    TwiceIsRegular(f, e);
    TwiceShape();
    SolvedHas(f, e, Twice(), d4);
    TwiceSolved();
    WindowIsTwo(f, 4, w[3], w[4]);
    d5 := NextWindow(f, d4, Solving(Twice()), MakeRepair(f, 4, [w[3], w[4]]), 3, 4);
    if inOrder {
      AddedForward(f, d3, w[2]);
      AddedLonger(f, d3, w[2], d4);
      SolvedQueues(f, e, Twice(), d4, 0);
    } else {
      HasIs(d3, Middle());
      HasIs(d4, Solving(Twice()));
      MiddleShape();
      assert 0 !in d3.sources.Keys && 0 in d4.sources.Keys;
      HandedOverExactly(f, d3, SourcePacket(w[2]), d4);
    }
  }

  lemma AddedLonger<E(!new)>(f: Field<E>, d: State<E>, src: Source<E>, d': State<E>)
    requires Takes(f, d, SourcePacket(src), d') && d.inOrder && 0 < d.firstMissing
    ensures d.log <= d'.log
  {
    hide Takes;
    OlderHandedOverExactly(f, d, SourcePacket(src), d', 0);
  }
}
