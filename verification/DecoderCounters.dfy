/** What the decoder counts, packet by packet and over any sequence of packets: which repairs are useless, how many
    sources were decoded, and that every repair that was looked at is held, used up for one source, given up, useless or
    outdated. */
module DecoderCounters {
  import opened GaloisField
  import opened LinearAlgebra
  import opened Ids
  import opened Symbols
  import opened DecoderModel
  import opened EncoderModel
  import opened Peeling
  import opened Delivery
  import opened DecoderInvariant
  import opened FullDecoding
  import opened DecoderSteps
  import opened SavedIterator
  import opened Processing
  import opened LostSources
  import opened Repeats
  import opened GivenUp
  import opened Redundancy
  import opened Shapes

  // ----- useless repairs

  /** A repair that is not held and lists a source that is not outdated. */
  ghost predicate LookedAt<E>(d: State<E>, r: Repair<E>) {
    r.id !in d.repairs && exists s :: s in r.ids && Low(d) <= s
  }

  lemma LookedAtIs<E>(d: State<E>, r: Repair<E>)
    requires r.ids != {}
    ensures LookedAt(d, r) <==> Processed(d, r)
  {
    assert Max(r.ids) in r.ids;
  }

  lemma OutdatingIgnores<E>(d: State<E>, id: nat)
    ensures var c := DropOutdated(d, id);
            c.useless == d.useless && c.failed == d.failed && c.decoded == d.decoded && c.inOrder == d.inOrder
  {
  }

  lemma FullStepIsUseful<E(!new)>(f: Field<E>, d: State<E>, d': State<E>)
    requires FullStep(f, d, d')
    ensures d'.useless == d.useless
  {
    hide Coefficients, Singular, LeftInverse, RebuiltAll, RepairList, Sorted;
  }

  /** A repair that is looked at is counted as useless exactly when all its sources are stored; one that is not looked
      at changes nothing. */
  lemma UselessExactly<E(!new)>(f: Field<E>, d: State<E>, r: Repair<E>, d': State<E>)
    requires r.ids != {} && RepairStep(f, d, r, d')
    ensures d'.useless == d.useless + if LookedAt(d, r) && r.ids <= d.sources.Keys then 1 else 0
    ensures !LookedAt(d, r) ==> d' == d
    ensures LookedAt(d, r) && r.ids <= d.sources.Keys ==>
              d' == DropOutdated(d, Min(r.ids)).(useless := d.useless + 1)
  {
    LookedAtIs(d, r);
    hide LookedAt;
    if Processed(d, r) {
      var c := DropOutdated(d, Min(r.ids));
      OutdatingIs(d, Min(r.ids));
      OutdatingIgnores(d, Min(r.ids));
      hide DropOutdated, UsefulStep;
      assert r.ids <= c.sources.Keys <==> r.ids <= d.sources.Keys;
      if !(r.ids <= c.sources.Keys) {
        UsefulIsUseful(f, c, r, d');
      }
    }
  }

  lemma UsefulIsUseful<E(!new)>(f: Field<E>, c: State<E>, r: Repair<E>, d': State<E>)
    requires !(r.ids <= c.sources.Keys) && UsefulStep(f, c, r, d')
    ensures d'.useless == c.useless
  {
    hide UsefulStep, FullStep, Scan, Create, StripKnown, Add;
    var s := UsefulIs(f, c, r, d');
    if |s.ids| != 1 {
      FullStepIsUseful(f, Link(c, s), d');
    }
  }

  /** A source never is. */
  lemma SourceIsUseful<E(!new)>(f: Field<E>, d: State<E>, src: Source<E>, d': State<E>)
    requires SourceStep(f, d, src, d')
    ensures d'.useless == d.useless
  {
    hide FullStep, Add;
    if !(IsOld(d, src.id) || src.id in d.sources) {
      FullStepIsUseful(f, Add(f, d, src), d');
    }
  }

  // ----- stored sources and repairs

  /** From `d` to `t`, `received` sources were stored as they came and `looked` repairs were taken in: every other
      stored source was decoded, and every repair is held, used up for one decoded source, given up or useless. */
  ghost predicate Books<E>(d: State<E>, t: State<E>, received: int, looked: int) {
    && |t.sources.Keys| == |d.sources.Keys| + received + (t.decoded - d.decoded)
    && |t.repairs.Keys| + (t.decoded - d.decoded) + (t.failed - d.failed) + (t.useless - d.useless)
       == |d.repairs.Keys| + looked
  }

  lemma BooksTwice<E>(a: State<E>, b: State<E>, c: State<E>, x: int, y: int, z: int, w: int)
    requires Books(a, b, x, y) && Books(b, c, z, w)
    ensures Books(a, c, x + z, y + w)
  {
  }

  lemma BooksThen<E>(a: State<E>, b: State<E>, c: State<E>, x: int, y: int)
    requires Books(a, b, x, y) && Books(b, c, 0, 0)
    ensures Books(a, c, x, y)
  {
  }

  lemma DisjointSize<T>(a: set<T>, b: set<T>)
    requires a !! b
    ensures |a + b| == |a| + |b|
  {
  }

  lemma AddBooks<E(!new)>(f: Field<E>, d: State<E>, src: Source<E>)
    requires Links(d) && Strippable(d, src.id) && src.id !in d.sources
    ensures Books(d, Add(f, d, src), 1, 0)
  {
    hide *;
    var u, a := Unlink(f, d, src), Add(f, d, src);
    AddEffect(f, d, src);
    AddKeys(f, d, src);
    UnlinkKeepsLinks(f, d, src);
    UnlinkCount(f, d, src);
    AsManyUsedAsReady(u);
    MinusSize(u.repairs, UsedSet(u));
    KnownApart(d);
    assert src.id !in d.sources.Keys;
    DisjointSize(d.sources.Keys, ReadySet(u));
    DisjointSize(d.sources.Keys + ReadySet(u), {src.id});
    AddedBooks(d, a, u);
  }

  lemma AddedBooks<E>(d: State<E>, a: State<E>, u: State<E>)
    requires Untouched(d, a) && a.decoded == d.decoded + |ReadySet(u)|
    requires |a.sources.Keys| == |d.sources.Keys| + |ReadySet(u)| + 1
    requires |a.repairs.Keys| + |ReadySet(u)| == |d.repairs.Keys|
    ensures Books(d, a, 1, 0)
  {
    hide ReadySet;
  }

  lemma FullStepBooks<E(!new)>(f: Field<E>, d: State<E>, d': State<E>)
    requires Links(d) && FullStep(f, d, d')
    ensures Books(d, d', 0, 0) && d.decoded <= d'.decoded && d.failed <= d'.failed <= d.failed + 1
  {
    hide Coefficients, Singular, Solved, GiveUp, Links;
    if !(|d.repairs.Keys| == 0 || |d.missing.Keys| == 0 || |d.missing.Keys| > |d.repairs.Keys|) {
      if Singular(f, Coefficients(f, d)) {
        GiveUpBooks(d);
      } else {
        var l: Matrix<E> :| Solved(f, d, d', l);
        SolvedBooks(f, d, d', l);
      }
    }
  }

  lemma GiveUpBooks<E>(d: State<E>)
    requires |d.repairs.Keys| > 0
    ensures var g := GiveUp(d); Books(d, g, 0, 0) && g.decoded == d.decoded && g.failed == d.failed + 1
  {
    assert GiveUp(d).repairs.Keys == d.repairs.Keys - {Max(d.repairs.Keys)};
  }

  lemma SolvedBooks<E(!new)>(f: Field<E>, d: State<E>, d': State<E>, l: Matrix<E>)
    requires Links(d) && Solved(f, d, d', l)
    ensures Books(d, d', 0, 0) && d.decoded <= d'.decoded && d'.failed == d.failed
  {
    hide Coefficients, LeftInverse, RebuiltAll, DeliverAll, RepairList, Sorted, Links, IdsOf, LogDistinct;
    var srcs := RebuiltAll(f, l, RepairList(d), Sorted(d.missing.Keys));
    RebuiltDistinct(f, d, l);
    DeliverAllKeys(d, srcs);
    KnownApart(d);
    DisjointSize(d.sources.Keys, d.missing.Keys);
    assert d'.repairs.Keys == {};
  }

  lemma SourceBooks<E(!new)>(f: Field<E>, d: State<E>, src: Source<E>, d': State<E>)
    requires Takes(f, d, SourcePacket(src), d')
    ensures Books(d, d', if Low(d) <= src.id && src.id !in d.sources then 1 else 0, 0)
  {
    hide FullStep, Add, Strippable, Links, Balanced, Young;
    if Low(d) <= src.id && src.id !in d.sources {
      var a := Add(f, d, src);
      AddBooks(f, d, src);
      AddStillLinks(f, d, src);
      FullStepBooks(f, a, d');
      BooksThen(d, a, d', 1, 0);
    }
  }

  lemma LoneBooks<E(!new)>(f: Field<E>, c: State<E>, s: Repair<E>, x: nat)
    requires Links(c) && s.id !in c.repairs && s.ids == {x} && x !in c.sources && Alone(c, x)
    ensures Books(c, Add(f, Take(Link(c, s), x, s.id), Create(f, s)), 0, 1)
  {
    hide *;
    var t, src := Take(Link(c, s), x, s.id), Create(f, s);
    Isolated(c, s, x);
    CreateId(f, s, x);
    LinkThenTake(c, s, x);
    TakeBooks(c, s, x, t);
    AddBooks(f, t, src);
    BooksTwice(c, t, Add(f, t, src), -1, 1, 1, 0);
  }

  lemma TakeBooks<E>(c: State<E>, s: Repair<E>, x: nat, t: State<E>)
    requires t == Take(Link(c, s), x, s.id) && t.repairs == c.repairs && t.sources == c.sources
    ensures Books(c, t, -1, 1)
  {
  }

  lemma LinkBooks<E>(c: State<E>, e: State<E>, k: nat)
    requires k !in c.repairs.Keys && e.repairs.Keys == c.repairs.Keys + {k}
    requires e == c.(repairs := e.repairs, missing := e.missing)
    ensures Books(c, e, 0, 1)
  {
  }

  lemma UsefulBooks<E(!new)>(f: Field<E>, c: State<E>, r: Repair<E>, d': State<E>)
    requires Links(c) && r.id !in c.repairs && !(r.ids <= c.sources.Keys)
    requires RoomFor(c, r.ids - c.sources.Keys) && UsefulStep(f, c, r, d')
    ensures Books(c, d', 0, 1)
  {
    hide *;
    var s := UsefulIs(f, c, r, d');
    if |s.ids| == 1 {
      var x := Min(s.ids);
      SingletonIs(s.ids, x);
      RoomIsAlone(c, s.ids, x);
      LoneBooks(f, c, s, x);
    } else {
      SeveralBooks(f, c, s, d');
    }
  }

  lemma SeveralBooks<E(!new)>(f: Field<E>, c: State<E>, s: Repair<E>, d': State<E>)
    requires Links(c) && s.id !in c.repairs && s.ids != {} && s.ids !! c.sources.Keys && FullStep(f, Link(c, s), d')
    ensures Books(c, d', 0, 1)
  {
    hide *;
    var e := Link(c, s);
    LinkKeepsLinks(c, s);
    LinkedRepairs(c, s);
    LinkBooks(c, e, s.id);
    FullStepBooks(f, e, d');
    BooksThen(c, e, d', 0, 1);
  }

  lemma UselessBooks<E>(c: State<E>, d': State<E>)
    requires d' == c.(useless := c.useless + 1)
    ensures Books(c, d', 0, 1)
  {
  }

  lemma RepairBooks<E(!new)>(f: Field<E>, d: State<E>, r: Repair<E>, d': State<E>)
    requires Takes(f, d, RepairPacket(r), d') && r.ids != {} && Processed(d, r)
    ensures Books(DropOutdated(d, Min(r.ids)), d', 0, 1)
  {
    var c := DropOutdated(d, Min(r.ids));
    OutdatingLinks(f, d, Min(r.ids));
    OutdatingIs(d, Min(r.ids));
    assert r.id !in c.repairs.Keys;
    hide DropOutdated, Links, FullStep, UsefulStep, Young, RepairKeepsIterators, RoomFor, Books;
    if r.ids <= c.sources.Keys {
      UselessBooks(c, d');
    } else {
      UsefulBooks(f, c, r, d');
    }
  }

  // ----- any packet

  /** The packet is a source that is stored as it comes. */
  ghost predicate Stores<E>(d: State<E>, p: Packet<E>) {
    p.SourcePacket? && Low(d) <= p.source.id && p.source.id !in d.sources
  }

  ghost predicate Looks<E>(d: State<E>, p: Packet<E>) {
    p.RepairPacket? && LookedAt(d, p.repair)
  }

  ghost predicate Useless<E>(d: State<E>, p: Packet<E>) {
    Looks(d, p) && p.repair.ids <= d.sources.Keys
  }

  ghost predicate Older(s: nat, ids: set<nat>) {
    forall x | x in ids :: s < x
  }

  /** The stored sources, and the repairs, that are older than a repair that is looked at. */
  ghost function Erased<E>(d: State<E>, p: Packet<E>): set<nat> {
    if Looks(d, p) then set s | s in d.sources && Older(s, p.repair.ids) else {}
  }

  ghost function Dropped<E>(d: State<E>, p: Packet<E>): set<nat> {
    if Looks(d, p) then set k | k in d.repairs && exists s :: s in d.repairs[k].ids && Older(s, p.repair.ids) else {}
  }

  lemma OlderIs(s: nat, ids: set<nat>)
    requires ids != {}
    ensures Older(s, ids) <==> s < Min(ids)
  {
  }

  lemma OutdatedSizes<E>(d: State<E>, p: Packet<E>, c: State<E>)
    requires p.RepairPacket? && p.repair.ids != {} && Looks(d, p) && c == DropOutdated(d, Min(p.repair.ids))
    ensures |c.sources.Keys| == |d.sources.Keys| - |Erased(d, p)|
    ensures |c.repairs.Keys| == |d.repairs.Keys| - |Dropped(d, p)|
  {
    hide *;
    var m := Min(p.repair.ids);
    OutdatingIs(d, m);
    ErasedIs(d, p, m);
    DroppedIs(d, p, m);
    Remaining(d.sources.Keys, Erased(d, p), c.sources.Keys);
    Remaining(d.repairs.Keys, Dropped(d, p), c.repairs.Keys);
  }

  lemma ErasedIs<E>(d: State<E>, p: Packet<E>, m: nat)
    requires p.RepairPacket? && p.repair.ids != {} && Looks(d, p) && m == Min(p.repair.ids)
    ensures Erased(d, p) == set s | s in d.sources.Keys && s < m
  {
    forall s | s in d.sources.Keys
      ensures Older(s, p.repair.ids) <==> s < m
    {
      OlderIs(s, p.repair.ids);
    }
    hide Older, Looks;
  }

  lemma DroppedIs<E>(d: State<E>, p: Packet<E>, m: nat)
    requires p.RepairPacket? && p.repair.ids != {} && Looks(d, p) && m == Min(p.repair.ids)
    ensures Dropped(d, p) == Outdated(d, m) && Dropped(d, p) <= d.repairs.Keys
  {
    forall s: nat
      ensures Older(s, p.repair.ids) <==> s < m
    {
      OlderIs(s, p.repair.ids);
    }
    hide Older, Looks;
    forall k | k in d.repairs
      ensures k in Outdated(d, m) <==> exists s :: s in d.repairs[k].ids && s < m
    {
      ListsOlder(d, m, k);
    }
    hide Outdated;
    assert Outdated(d, m) <= d.repairs.Keys by {
      OutdatedHeld(d, m);
    }
  }

  lemma OutdatedHeld<E>(d: State<E>, m: nat)
    ensures Outdated(d, m) <= d.repairs.Keys
  {
  }

  lemma Remaining(all: set<nat>, gone: set<nat>, left: set<nat>)
    requires gone <= all && forall x :: x in left <==> x in all && x !in gone
    ensures |left| == |all| - |gone|
  {
    assert left == all - gone;
  }

  lemma ListsOlder<E>(d: State<E>, id: nat, k: nat)
    requires k in d.repairs
    ensures k in Outdated(d, id) <==> exists x :: x in d.repairs[k].ids && x < id
  {
    if d.repairs[k].ids != {} {
      OutdatedIs(d, id, k);
    }
  }

  /** What one packet, processed as the code says, does to the counters: a stored source was received or decoded; a
      repair that was taken in is held, was used for one decoded source, given up or useless, as was every one held
      before that is not outdated; and exactly the repairs of stored sources are useless. */
  lemma PacketCounts<E(!new)>(f: Field<E>, d: State<E>, p: Packet<E>, d': State<E>)
    requires Takes(f, d, p, d')
    ensures d'.useless == d.useless + if Useless(d, p) then 1 else 0
    ensures |d'.sources.Keys| + |Erased(d, p)| + d.decoded
         == |d.sources.Keys| + d'.decoded + if Stores(d, p) then 1 else 0
    ensures |d'.repairs.Keys| + |Dropped(d, p)| + (d'.decoded - d.decoded) + (d'.failed - d.failed)
            + (d'.useless - d.useless)
         == |d.repairs.Keys| + if Looks(d, p) then 1 else 0
  {
    match p
    case SourcePacket(src) =>
      SourceBooks(f, d, src, d');
      SourceIsUseful(f, d, src, d');
      hide Takes;
    case RepairPacket(r) =>
      assert r.ids != {} && RepairStep(f, d, r, d');
      LookedAtIs(d, r);
      UselessExactly(f, d, r, d');
      if Processed(d, r) {
        RepairBooks(f, d, r, d');
        OutdatedSizes(d, p, DropOutdated(d, Min(r.ids)));
        OutdatingIgnores(d, Min(r.ids));
        hide Takes, DropOutdated, Erased, Dropped, LookedAt, RepairStep;
      } else {
        hide Takes, RepairStep;
      }
  }

  // ----- any sequence of packets

  ghost function UselessCount<E>(ds: seq<State<E>>, ps: seq<Packet<E>>, n: nat): nat
    requires n <= |ps| < |ds|
  {
    if n == 0 then 0 else UselessCount(ds, ps, n - 1) + if Useless(ds[n - 1], ps[n - 1]) then 1 else 0
  }

  ghost function StoredCount<E>(ds: seq<State<E>>, ps: seq<Packet<E>>, n: nat): nat
    requires n <= |ps| < |ds|
  {
    if n == 0 then 0 else StoredCount(ds, ps, n - 1) + if Stores(ds[n - 1], ps[n - 1]) then 1 else 0
  }

  ghost function LookedCount<E>(ds: seq<State<E>>, ps: seq<Packet<E>>, n: nat): nat
    requires n <= |ps| < |ds|
  {
    if n == 0 then 0 else LookedCount(ds, ps, n - 1) + if Looks(ds[n - 1], ps[n - 1]) then 1 else 0
  }

  ghost function ErasedCount<E>(ds: seq<State<E>>, ps: seq<Packet<E>>, n: nat): nat
    requires n <= |ps| < |ds|
  {
    if n == 0 then 0 else ErasedCount(ds, ps, n - 1) + |Erased(ds[n - 1], ps[n - 1])|
  }

  ghost function DroppedCount<E>(ds: seq<State<E>>, ps: seq<Packet<E>>, n: nat): nat
    requires n <= |ps| < |ds|
  {
    if n == 0 then 0 else DroppedCount(ds, ps, n - 1) + |Dropped(ds[n - 1], ps[n - 1])|
  }

  /** From the empty decoder, in both modes and in any order: the counter of useless repairs is the number of repairs
      that came when all their sources were stored; received and decoded sources are those that are stored or have been
      erased; and every repair that was looked at is held, used up for one decoded source, given up, useless or
      outdated. */
  lemma {:induction false} RunCounts<E(!new)>(f: Field<E>, ds: seq<State<E>>, ps: seq<Packet<E>>, inOrder: bool, n: nat)
    requires Continues(f, ds, ps) && ds[0] == Initial(inOrder) && n <= |ps|
    ensures |ds| == |ps| + 1
    ensures var d := ds[n];
            && d.useless == UselessCount(ds, ps, n)
            && StoredCount(ds, ps, n) + d.decoded == |d.sources.Keys| + ErasedCount(ds, ps, n)
            && LookedCount(ds, ps, n)
               == |d.repairs.Keys| + d.decoded + d.failed + d.useless + DroppedCount(ds, ps, n)
  {
    hide Continues, Takes, Erased, Dropped, Looks, Useless, Stores;
    SameLength(f, ds, ps);
    if n > 0 {
      RunCounts(f, ds, ps, inOrder, n - 1);
      PacketAt(f, ds, ps, n - 1);
      PacketCounts(f, ds[n - 1], ps[n - 1], ds[n]);
    }
  }

  lemma SameLength<E(!new)>(f: Field<E>, ds: seq<State<E>>, ps: seq<Packet<E>>)
    requires Continues(f, ds, ps)
    ensures |ds| == |ps| + 1
  {
    hide Takes;
  }
}
