/** What more holds when packets arrive in the order in which they were sent: held repairs list initial
    runs of the missing sources, at least two each, and delivery is complete after every call. */
module OrderedArrival {
  import opened GaloisField
  import opened LinearAlgebra
  import opened Ids
  import opened Symbols
  import opened DecoderModel
  import opened Peeling
  import opened Delivery
  import opened DecoderInvariant
  import opened FullDecoding
  import opened DecoderSteps
  import opened InOrderDelivery

  /** A held repair lists every missing source older than one it lists. */
  ghost predicate Nested<E>(d: State<E>) {
    forall k, m, s | k in d.repairs && m in d.missing && s in d.repairs[k].ids && m <= s :: m in d.repairs[k].ids
  }

  ghost predicate DegreeTwo<E>(d: State<E>) {
    forall k | k in d.repairs :: |d.repairs[k].ids| >= 2
  }

  /** Below a missing source, everything not outdated is missing or stored. */
  ghost predicate Dense<E>(d: State<E>) {
    forall s, m | s in d.missing && Low(d) <= m < s :: m in d.missing || m in d.sources
  }

  ghost predicate KnownBelow<E>(d: State<E>, bound: nat) {
    && (forall s | s in d.missing :: s < bound)
    && (forall s | s in d.sources :: s < bound)
  }

  ghost predicate Orderly<E(!new)>(f: Field<E>, truth: Truth<E>, d: State<E>, bound: nat) {
    && Good(f, truth, d, {})
    && Balanced(d)
    && Shape(d)
    && Complete(d)
    && KnownBelow(d, bound)
  }

  ghost predicate Shape<E>(d: State<E>) {
    Nested(d) && DegreeTwo(d) && Dense(d)
  }

  // ----- a new source

  lemma NothingReady<E>(d: State<E>)
    requires DegreeTwo(d)
    ensures ReadySet(d) == {}
  {
  }

  /** Nothing else becomes decodable with a source that no held repair encodes. */
  lemma AddIsPlain<E(!new)>(f: Field<E>, d: State<E>, src: Source<E>)
    requires DegreeTwo(d) && src.id !in d.missing
    ensures Add(f, d, src) == Store(Announce(d, src), src)
  {
    var a := Announce(d, src);
    assert Unlink(f, a, src) == a;
    NothingReady(a);
    ScanIdle(f, a, 0);
  }

  lemma PlainShape<E(!new)>(d: State<E>, src: Source<E>)
    requires Shape(d)
    ensures Shape(Store(Announce(d, src), src))
  {
  }

  lemma NewerThanFirstMissing<E>(d: State<E>, s: nat)
    requires Delivers(d, {}) && s !in d.sources && Low(d) <= s
    ensures d.inOrder ==> d.firstMissing <= s
  {
  }

  /** The effect of a new source: it is stored and delivered, and nothing else changes. */
  lemma NewSourceStep<E(!new)>(f: Field<E>, d: State<E>, src: Source<E>, d': State<E>)
    requires DegreeTwo(d) && Balanced(d) && src.id !in d.missing && src.id !in d.sources && !IsOld(d, src.id)
    requires SourceStep(f, d, src, d')
    ensures d' == Store(Announce(d, src), src)
  {
    hide DegreeTwo, Announce;
    AddIsPlain(f, d, src);
  }

  lemma NewSourceShape<E(!new)>(f: Field<E>, d: State<E>, src: Source<E>, d': State<E>, bound: nat)
    requires Shape(d) && Balanced(d) && Complete(d) && Delivers(d, {}) && KnownBelow(d, bound) && bound <= src.id
    requires SourceStep(f, d, src, d')
    ensures Shape(d') && Complete(d') && KnownBelow(d', src.id + 1)
  {
    assert src.id !in d.missing && src.id !in d.sources;
    if !IsOld(d, src.id) {
      hide Complete, Delivers, Balanced, SourceStep;
      NewSourceStep(f, d, src, d');
      NewerThanFirstMissing(d, src.id);
      NewSourceComplete(d, src);
      PlainShape(d, src);
    }
  }

  /** A source that is newer than everything known. */
  lemma NewSourceOrderly<E(!new)>(f: Field<E>, truth: Truth<E>, d: State<E>, src: Source<E>, d': State<E>, bound: nat)
    requires f.Laws() && TruthOk(f, truth) && Orderly(f, truth, d, bound)
    requires src.id in truth && truth[src.id] == src.data && bound <= src.id
    requires SourceStep(f, d, src, d')
    ensures Orderly(f, truth, d', src.id + 1) && StillResolved(d, d') && Low(d') == Low(d)
  {
    hide Good, Links, Delivers, Complete, Shape, Balanced, SourceStep, StillResolved, Strippable, Alone;
    GoodGives(f, truth, d, {});
    EncodesKnown(d, src.id);
    SourceStepGood(f, truth, d, src, d');
    NewSourceShape(f, d, src, d', bound);
  }

  lemma EncodesKnown<E>(d: State<E>, s: nat)
    requires Links(d) && s !in d.missing
    ensures Alone(d, s) && Strippable(d, s)
  {
  }

  // ----- a new repair

  /** The repair carries a window: every source from its first one up to `born` that is not listed is
      stored or outdated. */
  ghost predicate Window<E>(d: State<E>, ids: set<nat>, born: nat)
    requires ids != {}
  {
    && Low(d) <= Min(ids)
    && (forall s | s in ids :: s < born)
    && (forall m | Min(ids) <= m < born :: m in ids || Resolved(d, m))
  }

  lemma DropOutdatedShape<E>(d: State<E>, id: nat)
    requires Shape(d) && Low(d) <= id
    ensures Shape(DropOutdated(d, id))
  {
  }

  /** Either nothing is dropped or every repair is. */
  lemma DropsAllOrNothing<E>(d: State<E>, id: nat, k: nat)
    requires Links(d) && Nested(d) && k in DropOutdated(d, id).repairs
    ensures forall m | m in d.missing :: id <= m
  {
    var ids := d.repairs[k].ids;
    var s := Min(ids);
    forall m | m in d.missing
      ensures id <= m
    {
      if m <= s {
        assert m in ids;
      }
    }
  }

  lemma DropOutdatedBalanced<E>(d: State<E>, id: nat)
    requires Links(d) && Nested(d) && Balanced(d)
    ensures Balanced(DropOutdated(d, id))
  {
    hide Links, Nested, DropOutdated;
    var c := DropOutdated(d, id);
    DropOutdatedShrinks(d, id);
    SubsetSize(c.repairs.Keys, d.repairs.Keys);
    if c.repairs.Keys != {} {
      var k :| k in c.repairs.Keys;
      DropsAllOrNothing(d, id, k);
      assert c.missing.Keys == d.missing.Keys;
    }
  }

  /** Whatever is still missing after outdating is listed by the new repair. */
  lemma WindowCovers<E>(d: State<E>, ids: set<nat>, born: nat)
    requires ids != {} && Window(d, ids, born) && Young(d) && KnownBelow(d, born)
    requires d.missing.Keys !! d.sources.Keys
    ensures DropOutdated(d, Min(ids)).missing.Keys <= ids
    ensures DropOutdated(d, Min(ids)).missing.Keys <= ids - DropOutdated(d, Min(ids)).sources.Keys
  {
    forall m | m in d.missing && Min(ids) <= m
      ensures m in ids
    {
      assert !Resolved(d, m);
    }
  }

  lemma NoneHeld<E>(c: State<E>, rest: set<nat>)
    requires Links(c) && DegreeTwo(c) && c.missing.Keys <= rest && |rest| == 1
    ensures c.repairs.Keys == {}
  {
    if c.repairs.Keys != {} {
      var k :| k in c.repairs.Keys;
      EncodesMissing(c, k);
      SubsetSize(c.repairs[k].ids, rest);
    }
  }

  lemma NoneIsAlone<E>(c: State<E>)
    requires c.repairs.Keys == {}
    ensures forall x :: Alone(c, x)
  {
    forall x
      ensures Alone(c, x)
    {
      assert forall k | k in c.repairs :: k in c.repairs.Keys;
    }
  }

  lemma WindowHasRoom<E>(c: State<E>, rest: set<nat>)
    requires Links(c) && DegreeTwo(c) && Balanced(c) && c.missing.Keys <= rest
    ensures RoomFor(c, rest)
    ensures |rest| == 1 ==> c.repairs.Keys == {}
  {
    hide Links, DegreeTwo, Alone;
    if |rest| == 1 {
      NoneHeld(c, rest);
      NoneIsAlone(c);
    } else if rest != {} {
      assert c.missing.Keys + rest == rest;
      SubsetSize(c.missing.Keys, rest);
    }
  }

  /** Linking the new repair keeps the shape. */
  lemma LinkNested<E>(d: State<E>, c: State<E>, r: Repair<E>)
    requires Links(c) && Nested(c) && Dense(d) && Low(d) <= Low(c)
    requires c.missing.Keys == (set m | m in d.missing && Low(c) <= m)
    requires forall s | Low(c) <= s && s in d.sources :: s in c.sources
    requires c.missing.Keys <= r.ids && r.ids !! c.sources.Keys && forall s | s in r.ids :: Low(c) <= s
    ensures Nested(Link(c, r))
  {
    var t := Link(c, r);
    forall k, m, s | k in t.repairs && m in t.missing && s in t.repairs[k].ids && m <= s
      ensures m in t.repairs[k].ids
    {
      if k != r.id {
        EncodesMissing(c, k);
        assert s in d.missing && Low(d) <= m;
        assert m in r.ids;
        assert m == s || m in d.missing || m in d.sources;
        assert m in c.missing;
      }
    }
  }

  lemma LinkDense<E>(d: State<E>, c: State<E>, r: Repair<E>, ids: set<nat>, born: nat)
    requires ids != {} && Window(d, ids, born) && Low(c) == Min(ids)
    requires forall s | Min(ids) <= s && s in d.sources :: s in c.sources
    requires r.ids == ids - c.sources.Keys && c.missing.Keys <= r.ids
    ensures Dense(Link(c, r))
  {
    var t := Link(c, r);
    forall s, m | s in t.missing && Low(t) <= m < s
      ensures m in t.missing || m in t.sources
    {
      assert s in ids;
      assert m in ids || Resolved(d, m);
    }
  }

  lemma LinkShape<E>(d: State<E>, c: State<E>, r: Repair<E>, ids: set<nat>, born: nat)
    requires ids != {} && Window(d, ids, born) && Dense(d) && Links(c) && Shape(c) && Low(c) == Min(ids)
    requires c.missing.Keys == (set m | m in d.missing && Min(ids) <= m)
    requires forall s | Min(ids) <= s && s in d.sources :: s in c.sources
    requires r.ids == ids - c.sources.Keys && |r.ids| >= 2 && c.missing.Keys <= r.ids
    ensures Shape(Link(c, r))
  {
    LinkNested(d, c, r);
    LinkDense(d, c, r, ids, born);
  }

  lemma GiveUpShape<E>(d: State<E>)
    requires Shape(d) && |d.repairs.Keys| > 0
    ensures Shape(GiveUp(d)) && (Complete(d) ==> Complete(GiveUp(d)))
  {
  }

  lemma DeliverAllComplete<E>(truth: Truth<E>, d: State<E>, srcs: seq<Source<E>>)
    requires Complete(d)
    requires Delivers(d, {}) && SourcesTrue(truth, d) && LogTrue(truth, d.log) && Deliverable(truth, d, srcs)
    ensures Complete(DeliverAll(d, srcs))
    decreases |srcs|
  {
    if srcs != [] {
      var init, last := srcs[..|srcs| - 1], srcs[|srcs| - 1];
      DeliverAllComplete(truth, d, init);
      DeliverAllDelivers(truth, d, init);
      IdsOfLast(srcs);
      var r := DeliverAll(d, init);
      NewerThanFirstMissing(r, last.id);
      DeliverComplete(r, last);
    }
  }

  lemma SolveShape<E(!new)>(f: Field<E>, truth: Truth<E>, d: State<E>, d': State<E>, l: Matrix<E>)
    requires f.Laws() && TruthOk(f, truth) && Good(f, truth, d, {}) && Complete(d)
    requires Solved(f, d, d', l)
    ensures Shape(d') && Complete(d')
  {
    hide Good, Links, Young, RepairsRight, SourcesTrue, LogTrue, Delivers, Complete;
    hide RebuiltAll, CoefficientsOf, RepairList, Sorted, System, Deliverable;
    var rs, ms := RepairList(d), Sorted(d.missing.Keys);
    GoodGives(f, truth, d, {});
    HeldSystem(f, truth, d);
    MissingToRebuild(d);
    RebuiltDeliverable(f, truth, d, rs, ms, l);
    DeliverAllComplete(truth, d, RebuiltAll(f, l, rs, ms));
    CompleteIgnores(DeliverAll(d, RebuiltAll(f, l, rs, ms)), d');
  }

  lemma CompleteIgnores<E>(d: State<E>, t: State<E>)
    requires t == d.(repairs := t.repairs, missing := t.missing, decoded := t.decoded, useless := t.useless)
    ensures Complete(t) == Complete(d)
  {
  }

  lemma FullStepShape<E(!new)>(f: Field<E>, truth: Truth<E>, d: State<E>, d': State<E>)
    requires f.Laws() && TruthOk(f, truth) && Good(f, truth, d, {}) && Complete(d) && Shape(d)
    requires FullStep(f, d, d')
    ensures Shape(d') && Complete(d')
  {
    hide Good, Shape, Complete, Coefficients, Singular, Solved, GiveUp;
    if |d.repairs.Keys| == 0 || |d.missing.Keys| == 0 || |d.missing.Keys| > |d.repairs.Keys| {
    } else if Singular(f, Coefficients(f, d)) {
      GiveUpShape(d);
    } else {
      var l: Matrix<E> :| Solved(f, d, d', l);
      SolveShape(f, truth, d, d', l);
    }
  }

  lemma OutdatedOrderly<E(!new)>(f: Field<E>, truth: Truth<E>, d: State<E>, id: nat, bound: nat)
    requires Orderly(f, truth, d, bound) && Low(d) <= id
    ensures Orderly(f, truth, DropOutdated(d, id), bound)
    ensures StillResolved(d, DropOutdated(d, id))
  {
    hide Good, Links, Shape, Complete, Balanced, StillResolved, DropOutdated, Nested;
    GoodGives(f, truth, d, {});
    DropOutdatedGood(f, truth, d, id);
    DropOutdatedShape(d, id);
    DropOutdatedComplete(d, id);
    ShapeGives(d);
    DropOutdatedBalanced(d, id);
    DropOutdatedKnown(d, id, bound);
  }

  lemma ShapeGives<E>(d: State<E>)
    requires Shape(d)
    ensures Nested(d) && DegreeTwo(d) && Dense(d)
  {
  }

  lemma DropOutdatedKnown<E>(d: State<E>, id: nat, bound: nat)
    requires KnownBelow(d, bound)
    ensures KnownBelow(DropOutdated(d, id), bound)
    ensures forall s | id <= s && s in d.sources :: s in DropOutdated(d, id).sources
    ensures DropOutdated(d, id).missing.Keys == (set m | m in d.missing && id <= m)
  {
  }

  /** A repair with a single unknown source: with ordered arrival there was no other repair. */
  lemma DegreeOneShape<E(!new)>(f: Field<E>, c: State<E>, s: Repair<E>, x: nat, src: Source<E>)
    requires Links(c) && Complete(c) && Delivers(c, {}) && c.repairs.Keys == {} && c.missing.Keys <= {x}
    requires s.ids == {x} && x !in c.sources && Low(c) <= x && src.id == x
    ensures var d' := Add(f, Take(Link(c, s), x, s.id), src);
            Shape(d') && Complete(d')
  {
    var t := Take(Link(c, s), x, s.id);
    assert s.id !in c.repairs.Keys;
    LinkThenTake(c, s, x);
    assert t.missing.Keys == {} && t.repairs.Keys == {};
    EmptyShape(t);
    AddIsPlain(f, t, src);
    CompleteIgnores(c, t);
    NewerThanFirstMissing(c, x);
    NewSourceComplete(t, src);
    PlainShape(t, src);
  }

  lemma EmptyShape<E>(t: State<E>)
    requires t.missing.Keys == {} && t.repairs.Keys == {}
    ensures Shape(t)
  {
    assert forall k | k in t.repairs :: k in t.repairs.Keys;
    assert forall m | m in t.missing :: m in t.missing.Keys;
  }

  lemma UsefulShape<E(!new)>(f: Field<E>, truth: Truth<E>, d: State<E>, c: State<E>, r: Repair<E>, d': State<E>,
          born: nat)
    requires f.Laws() && TruthOk(f, truth) && RepairOk(f, truth, r) && r.ids != {} && Window(d, r.ids, born)
    requires Dense(d) && Good(f, truth, c, {}) && Shape(c) && Complete(c) && Balanced(c) && Low(c) == Min(r.ids)
    requires c.missing.Keys == (set m | m in d.missing && Min(r.ids) <= m)
    requires forall s | Min(r.ids) <= s && s in d.sources :: s in c.sources
    requires c.missing.Keys <= r.ids - c.sources.Keys
    requires r.id !in c.repairs && !(r.ids <= c.sources.Keys) && UsefulStep(f, c, r, d')
    ensures Shape(d') && Complete(d')
  {
    hide Good, Links, Shape, Complete, Balanced, Dense, Window, Delivers, StripKnown, RepairOk;
    hide Link, FullStep, Add, Create;
    GoodGives(f, truth, c, {});
    ShapeGives(c);
    var s := StrippedRight(f, truth, c, r);
    if |s.ids| == 1 {
      var x := Min(s.ids);
      SingletonIs(s.ids, x);
      NoneHeld(c, s.ids);
      CreateId(f, s, x);
      DegreeOneShape(f, c, s, x, Create(f, s));
    } else {
      HasTwo(s.ids);
      LinkShape(d, c, s, r.ids, born);
      LinkedGood(f, truth, c, s);
      LinkComplete(c, s);
      FullStepShape(f, truth, Link(c, s), d');
    }
  }

  lemma HasTwo<T>(s: set<T>)
    requires s != {} && |s| != 1
    ensures |s| >= 2
  {
  }

  lemma LinkComplete<E>(c: State<E>, s: Repair<E>)
    requires Complete(c)
    ensures Complete(Link(c, s))
  {
    CompleteIgnores(c, Link(c, s));
  }

  /** With ordered arrival every repair meets the conditions of the decoder's assertions. */
  lemma NewRepairMayArrive<E(!new)>(f: Field<E>, truth: Truth<E>, d: State<E>, ids: set<nat>, bound: nat, born: nat)
    requires Orderly(f, truth, d, bound) && bound <= born && ids != {} && Window(d, ids, born)
    ensures MayArrive(DropOutdated(d, Min(ids)), ids)
    ensures DropOutdated(d, Min(ids)).missing.Keys <= ids - DropOutdated(d, Min(ids)).sources.Keys
  {
    hide Good, Links, Shape, Complete, Balanced, StillResolved, DropOutdated, Nested, Window, RoomFor, Dense, DegreeTwo;
    var c := DropOutdated(d, Min(ids));
    GoodGives(f, truth, d, {});
    WindowGives(d, ids, born);
    OutdatedOrderly(f, truth, d, Min(ids), bound);
    GoodGives(f, truth, c, {});
    ShapeGives(c);
    MissingNotStored(d);
    WindowCovers(d, ids, born);
    WindowHasRoom(c, ids - c.sources.Keys);
  }

  lemma MissingNotStored<E>(d: State<E>)
    requires Links(d)
    ensures d.missing.Keys !! d.sources.Keys
  {
  }

  lemma UsefulOrderly<E(!new)>(f: Field<E>, truth: Truth<E>, d: State<E>, c: State<E>, r: Repair<E>, d': State<E>,
          bound: nat, born: nat)
    requires f.Laws() && TruthOk(f, truth) && Orderly(f, truth, d, bound) && bound <= born
    requires r.ids != {} && RepairOk(f, truth, r) && Window(d, r.ids, born)
    requires c == DropOutdated(d, Min(r.ids)) && r.id !in d.repairs && !(r.ids <= c.sources.Keys)
    requires UsefulStep(f, c, r, d')
    ensures Shape(d') && Complete(d') && KnownBelow(d', born)
  {
    hide Good, Links, Shape, Complete, Balanced, StillResolved, DropOutdated, Window, RepairOk;
    hide UsefulStep, MayArrive, Dense;
    ShapeGives(d);
    WindowGives(d, r.ids, born);
    NewRepairMayArrive(f, truth, d, r.ids, bound, born);
    OutdatedOrderly(f, truth, d, Min(r.ids), bound);
    DropOutdatedShrinks(d, Min(r.ids));
    DropOutdatedKnown(d, Min(r.ids), bound);
    UsefulShape(f, truth, d, c, r, d', born);
    UsefulGood(f, truth, c, r, d');
  }

  /** A repair that was sent after everything known. */
  lemma NewRepairOrderly<E(!new)>(f: Field<E>, truth: Truth<E>, d: State<E>, r: Repair<E>, d': State<E>, bound: nat,
          born: nat)
    requires f.Laws() && TruthOk(f, truth) && Orderly(f, truth, d, bound) && bound <= born
    requires r.ids != {} && RepairOk(f, truth, r) && Window(d, r.ids, born)
    requires RepairStep(f, d, r, d')
    ensures Orderly(f, truth, d', born) && StillResolved(d, d') && Low(d) <= Low(d') <= Min(r.ids)
  {
    hide Good, Shape, Complete, Balanced, StillResolved, DropOutdated, Window, RepairOk, MayArrive;
    hide UsefulStep;
    var id := Min(r.ids);
    var c := DropOutdated(d, id);
    WindowGives(d, r.ids, born);
    NewRepairMayArrive(f, truth, d, r.ids, bound, born);
    RepairStepGood(f, truth, d, r, d');
    if !IsOld(d, Max(r.ids)) && r.id !in d.repairs {
      OutdatedOrderly(f, truth, d, id, bound);
      if r.ids <= c.sources.Keys {
        CompleteIgnores(c, d');
        ShapeIgnores(c, d');
      } else {
        UsefulOrderly(f, truth, d, c, r, d', bound, born);
      }
    }
  }

  lemma WindowGives<E>(d: State<E>, ids: set<nat>, born: nat)
    requires ids != {} && Window(d, ids, born)
    ensures Low(d) <= Min(ids) && forall s | s in ids :: s < born
  {
  }

  lemma ShapeIgnores<E>(d: State<E>, t: State<E>)
    requires t == d.(useless := t.useless)
    ensures Shape(t) == Shape(d)
  {
  }
}
