/** Which identifiers a packet makes the decoder hand over, and so exactly when one is handed over again that was handed
    over before: this depends on whether it has been erased while the bound of what is outdated was moved back. */
module Repeats {
  import opened GaloisField
  import opened LinearAlgebra
  import opened Ids
  import opened Symbols
  import opened DecoderModel
  import opened EncoderModel
  import opened Peeling
  import opened Delivery
  import opened DecoderInvariant
  import opened FullDecoding
  import opened DecoderSteps
  import opened InOrderDelivery
  import opened NestedDecoding
  import opened SavedIterator
  import opened Processing
  import opened LostSources

  /** The longer log continues the other one with these identifiers, each once. */
  ghost predicate More<E>(log: seq<Source<E>>, longer: seq<Source<E>>, ids: set<nat>) {
    log <= longer && LogDistinct(longer[|log|..]) && IdsOf(longer[|log|..]) == ids
  }

  lemma NoMore<E>(log: seq<Source<E>>)
    ensures More(log, log, {})
  {
    assert log[|log|..] == [];
  }

  lemma OneMore<E>(log: seq<Source<E>>, src: Source<E>)
    ensures More(log, log + [src], {src.id})
  {
    assert (log + [src])[|log|..] == [src];
    assert [src][0] == src;
  }

  lemma MoreTwice<E>(a: seq<Source<E>>, b: seq<Source<E>>, c: seq<Source<E>>, x: set<nat>, y: set<nat>)
    requires More(a, b, x) && More(b, c, y) && x !! y
    ensures More(a, c, x + y)
  {
    var u, v := b[|a|..], c[|b|..];
    assert c[|a|..] == u + v;
    IdsJoin(u, v);
    DistinctJoin(u, v);
  }

  lemma IdsJoin<E>(u: seq<Source<E>>, v: seq<Source<E>>)
    ensures IdsOf(u + v) == IdsOf(u) + IdsOf(v)
  {
    forall s
      ensures s in IdsOf(u + v) <==> s in IdsOf(u) + IdsOf(v)
    {
      if i :| 0 <= i < |u| && u[i].id == s {
        assert (u + v)[i].id == s;
      }
      if i :| 0 <= i < |v| && v[i].id == s {
        assert (u + v)[|u| + i].id == s;
      }
    }
  }

  lemma DistinctJoin<E>(u: seq<Source<E>>, v: seq<Source<E>>)
    requires LogDistinct(u) && LogDistinct(v) && IdsOf(u) !! IdsOf(v)
    ensures LogDistinct(u + v)
  {
    forall i, j | 0 <= i < j < |u + v|
      ensures (u + v)[i].id != (u + v)[j].id
    {
      if i < |u| <= j {
        assert u[i].id in IdsOf(u) && v[j - |u|].id in IdsOf(v);
      }
    }
  }

  lemma InIds<E>(log: seq<Source<E>>, s: nat)
    ensures InLog(log, s) <==> s in IdsOf(log)
  {
  }

  // ----- unordered delivery: what is handed over is what is newly stored

  /** The identifiers in `t` that are not in `d`. */
  ghost function NewIds<E>(d: State<E>, t: State<E>): set<nat> {
    t.sources.Keys - d.sources.Keys
  }

  ghost predicate HandsOverNew<E>(d: State<E>, t: State<E>) {
    && t.inOrder == d.inOrder && d.sources.Keys <= t.sources.Keys
    && More(d.log, t.log, NewIds(d, t))
  }

  lemma SameHandsOver<E>(d: State<E>, t: State<E>)
    requires t.inOrder == d.inOrder && t.sources == d.sources && t.log == d.log
    ensures HandsOverNew(d, t)
  {
    NoMore(d.log);
  }

  lemma HandsOverTwice<E>(a: State<E>, b: State<E>, c: State<E>)
    requires HandsOverNew(a, b) && HandsOverNew(b, c)
    ensures HandsOverNew(a, c)
  {
    hide More;
    MoreTwice(a.log, b.log, c.log, NewIds(a, b), NewIds(b, c));
    assert NewIds(a, c) == NewIds(a, b) + NewIds(b, c);
  }

  /** A source is announced, others follow, and it is stored. */
  lemma AnnouncedThenStored<E>(d: State<E>, u: State<E>, v: State<E>, src: Source<E>)
    requires !d.inOrder && src.id !in v.sources && HandsOverNew(u, v)
    requires u.inOrder == d.inOrder && u.sources == d.sources && u.log == d.log + [src]
    ensures HandsOverNew(d, Store(v, src))
  {
    hide More;
    OneMore(d.log, src);
    assert src.id !in NewIds(u, v);
    MoreTwice(d.log, u.log, v.log, {src.id}, NewIds(u, v));
    assert NewIds(d, Store(v, src)) == {src.id} + NewIds(u, v);
  }

  lemma {:induction false} ScanHandsOver<E(!new)>(f: Field<E>, d: State<E>)
    requires Links(d) && !d.inOrder
    ensures HandsOverNew(d, Scan(f, d, 0))
    decreases |ReadySet(d)|
  {
    hide Scan, Links, ReadySet, HandsOverNew;
    if ReadySet(d) == {} {
      ScanIdle(f, d, 0);
      SameHandsOver(d, d);
    } else {
      var y := LeastReady(d);
      var t, src := ScanFirst(f, d, y);
      ScanHandsOver(f, t);
      NotPeeled(f, t, y);
      AnnouncedThenStored(d, t, Scan(f, t, 0), src);
    }
  }

  lemma AddHandsOver<E(!new)>(f: Field<E>, d: State<E>, src: Source<E>)
    requires Links(d) && Strippable(d, src.id) && !d.inOrder && src.id !in d.sources
    ensures HandsOverNew(d, Add(f, d, src))
  {
    var u := Unlink(f, Announce(d, src), src);
    UnlinkKeepsRest(f, Announce(d, src), src);
    hide Scan, Links, HandsOverNew, Strippable, Unlink;
    AnnouncedLinks(f, d, src);
    ScanHandsOver(f, u);
    NotReady(u, src.id);
    NotPeeled(f, u, src.id);
    AnnouncedThenStored(d, u, Scan(f, u, 0), src);
  }

  lemma {:induction false} DeliverAllHandsOver<E>(d: State<E>, srcs: seq<Source<E>>)
    requires !d.inOrder && LogDistinct(srcs) && IdsOf(srcs) !! d.sources.Keys
    ensures HandsOverNew(d, DeliverAll(d, srcs)) && NewIds(d, DeliverAll(d, srcs)) == IdsOf(srcs)
    decreases |srcs|
  {
    if srcs == [] {
      SameHandsOver(d, d);
    } else {
      var n := |srcs| - 1;
      assert srcs == srcs[..n] + [srcs[n]];
      IdsJoin(srcs[..n], [srcs[n]]);
      assert [srcs[n]][0] == srcs[n];
      assert srcs[n].id in IdsOf(srcs);
      LastIsNew(srcs);
      hide HandsOverNew, LogDistinct, IdsOf;
      DeliverAllHandsOver(d, srcs[..n]);
      var t := DeliverAll(d, srcs[..n]);
      DeliverHandsOver(t, srcs[n]);
      HandsOverTwice(d, t, Deliver(t, srcs[n]));
    }
  }

  lemma LastIsNew<E>(srcs: seq<Source<E>>)
    requires srcs != [] && LogDistinct(srcs)
    ensures var n := |srcs| - 1;
            LogDistinct(srcs[..n]) && srcs[n].id !in IdsOf(srcs[..n]) && IdsOf([srcs[n]]) == {srcs[n].id}
  {
    assert [srcs[|srcs| - 1]][0] == srcs[|srcs| - 1];
  }

  lemma DeliverHandsOver<E>(d: State<E>, src: Source<E>)
    requires !d.inOrder && src.id !in d.sources
    ensures HandsOverNew(d, Deliver(d, src)) && Deliver(d, src).sources.Keys == d.sources.Keys + {src.id}
  {
    OneMore(d.log, src);
    assert NewIds(d, Deliver(d, src)) == {src.id};
  }

  lemma RebuiltDistinct<E(!new)>(f: Field<E>, d: State<E>, l: Matrix<E>)
    requires IsSquare(l, |d.missing.Keys|) && |d.missing.Keys| == |d.repairs.Keys|
    ensures var srcs := RebuiltAll(f, l, RepairList(d), Sorted(d.missing.Keys));
            LogDistinct(srcs) && IdsOf(srcs) == d.missing.Keys
  {
    hide RebuiltAll, RepairList, Sorted;
    var ms := Sorted(d.missing.Keys);
    var srcs := RebuiltAll(f, l, RepairList(d), ms);
    RebuiltIds(f, l, RepairList(d), ms);
    forall s
      ensures s in IdsOf(srcs) <==> s in ms
    {
      AmongIds(srcs, ms, s);
    }
    assert forall s :: s in IdsOf(srcs) <==> s in d.missing.Keys;
  }

  lemma FullStepHandsOver<E(!new)>(f: Field<E>, d: State<E>, d': State<E>)
    requires Links(d) && !d.inOrder && FullStep(f, d, d')
    ensures HandsOverNew(d, d') && NewIds(d, d') <= d.missing.Keys
  {
    hide Coefficients, Singular, LeftInverse, RebuiltAll, DeliverAll, RepairList, Sorted, HandsOverNew;
    if |d.repairs.Keys| == 0 || |d.missing.Keys| == 0 || |d.missing.Keys| > |d.repairs.Keys|
       || Singular(f, Coefficients(f, d)) {
      SameHandsOver(d, d');
    } else {
      var l: Matrix<E> :| Solved(f, d, d', l);
      var srcs := RebuiltAll(f, l, RepairList(d), Sorted(d.missing.Keys));
      RebuiltDistinct(f, d, l);
      DeliverAllHandsOver(d, srcs);
      SameHandsOver(DeliverAll(d, srcs), d');
      HandsOverTwice(d, DeliverAll(d, srcs), d');
    }
  }

  lemma SourceHandsOver<E(!new)>(f: Field<E>, d: State<E>, src: Source<E>, d': State<E>)
    requires Takes(f, d, SourcePacket(src), d') && !d.inOrder
    ensures HandsOverNew(d, d')
  {
    hide FullStep, Add, Strippable, Links, HandsOverNew, Balanced, Young;
    if IsOld(d, src.id) || src.id in d.sources {
      SameHandsOver(d, d');
    } else {
      AddHandsOver(f, d, src);
      AddStillLinks(f, d, src);
      FullStepHandsOver(f, Add(f, d, src), d');
      HandsOverTwice(d, Add(f, d, src), d');
    }
  }

  // ----- a repair, unordered

  lemma LoneHandsOver<E(!new)>(f: Field<E>, c: State<E>, s: Repair<E>, x: nat)
    requires Links(c) && !c.inOrder && s.id !in c.repairs && s.ids == {x} && x !in c.sources && Alone(c, x)
    ensures var a := Add(f, Take(Link(c, s), x, s.id), Create(f, s));
            HandsOverNew(c, a) && NewIds(c, a) <= c.missing.Keys + {x} && a.lastId == c.lastId
  {
    var t, src := Take(Link(c, s), x, s.id), Create(f, s);
    LinkThenTake(c, s, x);
    AloneKeepsLinks(c, t, x);
    CreateId(f, s, x);
    AloneIsStrippable(c, t, x);
    LinkTakeRest(c, s, x);
    hide Links, Link, Take, Create, Alone, HandsOverNew, Strippable, Add;
    AddHandsOver(f, t, src);
    AddStores(f, t, src);
    AddKeepsBound(f, t, src);
    SameHandsOver(c, t);
    HandsOverTwice(c, t, Add(f, t, src));
  }

  lemma LinkTakeRest<E>(c: State<E>, s: Repair<E>, x: nat)
    ensures var t := Take(Link(c, s), x, s.id);
            t.inOrder == c.inOrder && t.log == c.log && t.lastId == c.lastId
  {
  }

  lemma AddKeepsBound<E(!new)>(f: Field<E>, d: State<E>, src: Source<E>)
    requires Links(d) && Strippable(d, src.id)
    ensures Add(f, d, src).lastId == d.lastId
  {
    AddEffect(f, d, src);
  }

  lemma AloneIsStrippable<E>(c: State<E>, t: State<E>, x: nat)
    requires Alone(c, x) && t.repairs == c.repairs
    ensures Strippable(t, x)
  {
  }

  lemma FullStepKeepsBound<E(!new)>(f: Field<E>, d: State<E>, d': State<E>)
    requires FullStep(f, d, d')
    ensures d'.lastId == d.lastId
  {
    hide Coefficients, Singular, LeftInverse, RebuiltAll, RepairList, Sorted;
  }

  lemma SeveralHandOver<E(!new)>(f: Field<E>, c: State<E>, s: Repair<E>, d': State<E>)
    requires Links(c) && !c.inOrder && s.id !in c.repairs && s.ids != {} && s.ids !! c.sources.Keys
    requires FullStep(f, Link(c, s), d')
    ensures HandsOverNew(c, d') && NewIds(c, d') <= c.missing.Keys + s.ids && d'.lastId == c.lastId
  {
    var e := Link(c, s);
    LinkKeepsLinks(c, s);
    assert e.inOrder == c.inOrder && e.log == c.log && e.sources == c.sources && e.lastId == c.lastId;
    hide Links, Link, FullStep, HandsOverNew;
    FullStepHandsOver(f, e, d');
    FullStepKeepsBound(f, e, d');
    SameHandsOver(c, e);
    HandsOverTwice(c, e, d');
  }

  /** What becomes of a useful repair, once the known sources are removed from it. */
  lemma UsefulIs<E(!new)>(f: Field<E>, c: State<E>, r: Repair<E>, d': State<E>) returns (s: Repair<E>)
    requires !(r.ids <= c.sources.Keys) && UsefulStep(f, c, r, d')
    ensures s.id == r.id && s.ids == r.ids - c.sources.Keys && s.ids != {}
    ensures |s.ids| == 1 ==> d' == Add(f, Take(Link(c, s), Min(s.ids), s.id), Create(f, s))
    ensures |s.ids| != 1 ==> FullStep(f, Link(c, s), d')
  {
    hide Link, Take, StripKnown, FullStep, Add, Create;
    s := StripKnown(f, r, c.sources, r.ids * c.sources.Keys);
    StripKnownIds(f, r, c.sources, r.ids * c.sources.Keys);
    var e :| e in r.ids && e !in c.sources.Keys;
    assert e in s.ids;
  }

  lemma UsefulHandsOver<E(!new)>(f: Field<E>, c: State<E>, r: Repair<E>, d': State<E>)
    requires Links(c) && !c.inOrder && r.id !in c.repairs && !(r.ids <= c.sources.Keys)
    requires RoomFor(c, r.ids - c.sources.Keys) && UsefulStep(f, c, r, d')
    ensures HandsOverNew(c, d') && NewIds(c, d') <= c.missing.Keys + r.ids && d'.lastId == c.lastId
  {
    hide *;
    var s := UsefulIs(f, c, r, d');
    if |s.ids| == 1 {
      var x := Min(s.ids);
      SingletonIs(s.ids, x);
      RoomIsAlone(c, s.ids, x);
      LoneHandsOver(f, c, s, x);
    } else {
      SeveralHandOver(f, c, s, d');
    }
  }

  lemma RoomIsAlone<E>(c: State<E>, rest: set<nat>, x: nat)
    requires RoomFor(c, rest) && rest == {x}
    ensures Alone(c, x)
  {
  }

  lemma UnorderedOutdating<E>(d: State<E>, id: nat)
    requires !d.inOrder
    ensures DropOutdated(d, id).log == d.log && !DropOutdated(d, id).inOrder
    ensures DropOutdated(d, id).repairs.Keys <= d.repairs.Keys
  {
  }

  /** The repair is looked at: it is not old and not held already. */
  ghost predicate Processed<E>(d: State<E>, r: Repair<E>)
    requires r.ids != {}
  {
    !IsOld(d, Max(r.ids)) && r.id !in d.repairs
  }

  lemma RepairHandsOver<E(!new)>(f: Field<E>, d: State<E>, r: Repair<E>, d': State<E>)
    requires Takes(f, d, RepairPacket(r), d') && !d.inOrder && r.ids != {} && Processed(d, r)
    ensures var c := DropOutdated(d, Min(r.ids)); HandsOverNew(c, d') && Low(d') == Low(c)
    ensures forall s | s in NewIds(DropOutdated(d, Min(r.ids)), d') :: Min(r.ids) <= s
  {
    var c := DropOutdated(d, Min(r.ids));
    OutdatingLinks(f, d, Min(r.ids));
    OutdatingIs(d, Min(r.ids));
    UnorderedOutdating(d, Min(r.ids));
    hide DropOutdated, Links, FullStep, UsefulStep, HandsOverNew, Young, RepairKeepsIterators, RoomFor;
    if r.ids <= c.sources.Keys {
      SameHandsOver(c, d');
      assert NewIds(c, d') == {};
    } else {
      UsefulHandsOver(f, c, r, d');
    }
    forall s | s in NewIds(c, d')
      ensures Min(r.ids) <= s
    {
      assert s in c.missing.Keys || s in r.ids;
    }
  }

  // ----- unordered delivery: when an identifier is handed over again

  /** Without order, a packet makes the decoder hand over exactly what it newly stores, each source once. So an
      identifier that was handed over before is handed over again exactly when it is stored and had been erased. */
  lemma HandedOverExactly<E(!new)>(f: Field<E>, d: State<E>, p: Packet<E>, d': State<E>)
    requires Takes(f, d, p, d') && !d.inOrder
    ensures d.log <= d'.log && LogDistinct(d'.log[|d.log|..])
    ensures forall s :: InLog(d'.log[|d.log|..], s) <==> s in d'.sources && s !in d.sources
  {
    var c := StateBefore(d, p);
    BeforeIs(f, d, p, d');
    hide Takes, StateBefore;
    forall s
      ensures InLog(d'.log[|d.log|..], s) <==> s in d'.sources && s !in d.sources
    {
      InIds(d'.log[|d.log|..], s);
      assert s in NewIds(c, d') <==> s in d'.sources && s !in d.sources;
    }
  }

  /** The state once outdated data has been dropped. */
  ghost function StateBefore<E>(d: State<E>, p: Packet<E>): State<E> {
    if p.RepairPacket? && p.repair.ids != {} && Processed(d, p.repair) then DropOutdated(d, Min(p.repair.ids)) else d
  }

  lemma BeforeIs<E(!new)>(f: Field<E>, d: State<E>, p: Packet<E>, d': State<E>)
    requires Takes(f, d, p, d') && !d.inOrder
    ensures var c := StateBefore(d, p);
            && c.log == d.log && HandsOverNew(c, d') && Low(d') == Low(c) && !d'.inOrder
            && c.sources.Keys <= d.sources.Keys
            && forall s | s in NewIds(c, d') :: s !in d.sources && Low(c) <= s
  {
    match p
    case SourcePacket(src) =>
      SourceHandsOver(f, d, src, d');
      SourceIsYoung(f, d, src, d');
      hide HandsOverNew, Takes;
    case RepairPacket(r) =>
      if Processed(d, r) {
        RepairHandsOver(f, d, r, d');
        OutdatingIs(d, Min(r.ids));
        UnorderedOutdating(d, Min(r.ids));
        hide HandsOverNew, Takes, DropOutdated, Defined;
      } else {
        assert d' == d;
        SameHandsOver(d, d);
      }
  }

  lemma SourceIsYoung<E(!new)>(f: Field<E>, d: State<E>, src: Source<E>, d': State<E>)
    requires Takes(f, d, SourcePacket(src), d') && !d.inOrder
    ensures Low(d') == Low(d) && forall s | s in NewIds(d, d') :: Low(d) <= s
  {
    if !IsOld(d, src.id) && src.id !in d.sources {
      var a := Add(f, d, src);
      hide FullStep, Add, Strippable, Links, Balanced;
      AddStores(f, d, src);
      AddKeepsBound(f, d, src);
      AddStillLinks(f, d, src);
      FullStepHandsOver(f, a, d');
      FullStepKeepsBound(f, a, d');
      forall s | s in NewIds(d, d')
        ensures Low(d) <= s
      {
        assert s in NewIds(a, d') || s in a.sources.Keys;
        assert s in d.missing.Keys || s == src.id;
      }
    }
  }

  /** Everything handed over is still stored, or outdated. */
  ghost predicate Remembers<E>(d: State<E>) {
    forall s: nat | InLog(d.log, s) :: s in d.sources || s < Low(d)
  }

  ghost predicate Recalled(ids: set<nat>, stored: set<nat>, low: nat) {
    forall s | s in ids :: s in stored || s < low
  }

  lemma RemembersIs<E>(d: State<E>)
    ensures Remembers(d) <==> Recalled(IdsOf(d.log), d.sources.Keys, Low(d))
  {
    hide IdsOf, InLog;
    forall s: nat
      ensures InLog(d.log, s) <==> s in IdsOf(d.log)
    {
      InIds(d.log, s);
    }
  }

  lemma DistinctGrown<E>(log: seq<Source<E>>, longer: seq<Source<E>>, ids: set<nat>)
    requires LogDistinct(log) && More(log, longer, ids)
    ensures LogDistinct(longer) <==> IdsOf(log) !! ids
    ensures IdsOf(longer) == IdsOf(log) + ids
  {
    var more := longer[|log|..];
    assert longer == log + more;
    IdsJoin(log, more);
    if IdsOf(log) !! ids {
      DistinctJoin(log, more);
    } else {
      var s :| s in IdsOf(log) && s in IdsOf(more);
      var i :| 0 <= i < |log| && log[i].id == s;
      var j :| 0 <= j < |more| && more[j].id == s;
      assert longer[i].id == longer[|log| + j].id;
    }
  }

  lemma RecalledExactly(past: set<nat>, added: set<nat>, stored: set<nat>, low: nat)
    requires added !! stored && forall s | s in added :: low <= s
    ensures past !! added && Recalled(past + added, stored + added, low) <==> Recalled(past, stored, low)
  {
    if Recalled(past, stored, low) {
      forall s | s in past
        ensures s !in added
      {
      }
    } else {
      var s :| s in past && !(s in stored || s < low);
      assert Recalled(past + added, stored + added, low) ==> s in added;
    }
  }

  /** A packet keeps the promises, that nothing is handed over twice and everything handed over is remembered, exactly
      if everything handed over so far is remembered when what the packet outdates has been dropped. */
  lemma PromisesKeptExactly<E(!new)>(f: Field<E>, d: State<E>, p: Packet<E>, d': State<E>)
    requires Takes(f, d, p, d') && !d.inOrder && LogDistinct(d.log)
    ensures LogDistinct(d'.log) && Remembers(d') <==> Remembers(StateBefore(d, p))
  {
    hide *;
    var c := StateBefore(d, p);
    BeforeIs(f, d, p, d');
    HandsOverIs(c, d');
    var added := NewIds(c, d');
    DistinctGrown(d.log, d'.log, added);
    RemembersIs(c);
    RemembersIs(d');
    RecalledExactly(IdsOf(d.log), added, c.sources.Keys, Low(c));
  }

  lemma HandsOverIs<E>(c: State<E>, t: State<E>)
    requires HandsOverNew(c, t)
    ensures More(c.log, t.log, NewIds(c, t)) && t.sources.Keys == c.sources.Keys + NewIds(c, t)
    ensures NewIds(c, t) !! c.sources.Keys
  {
  }

  /** Before the call this can be read off the bound: a source keeps the promises, and a repair that is looked at keeps
      them exactly if everything handed over is still stored or is older than its first source. */
  lemma RepairForgetsExactly<E>(d: State<E>, p: Packet<E>)
    requires !d.inOrder && p.RepairPacket? && p.repair.ids != {} && Processed(d, p.repair)
    ensures Remembers(StateBefore(d, p)) <==>
              forall s: nat | InLog(d.log, s) :: s in d.sources || s < Min(p.repair.ids)
  {
    var id := Min(p.repair.ids);
    var c := DropOutdated(d, id);
    OutdatingIs(d, id);
    UnorderedOutdating(d, id);
    hide DropOutdated, InLog;
    assert forall s :: s in c.sources.Keys <==> s in d.sources.Keys && id <= s;
  }

  /** What has been forgotten is handed over again when it arrives, and nothing else is. */
  lemma ForgottenComesAgain<E(!new)>(f: Field<E>, d: State<E>, src: Source<E>, d': State<E>)
    requires Takes(f, d, SourcePacket(src), d') && !d.inOrder && InLog(d.log, src.id)
    ensures d.log <= d'.log
    ensures InLog(d'.log[|d.log|..], src.id) <==> Low(d) <= src.id && src.id !in d.sources
  {
    HandedOverExactly(f, d, SourcePacket(src), d');
    if !IsOld(d, src.id) && src.id !in d.sources {
      var a := Add(f, d, src);
      hide FullStep, Add, Strippable, Links, Balanced, InLog, LogDistinct;
      AddStores(f, d, src);
      AddStillLinks(f, d, src);
      AddIsUnordered(f, d, src);
      FullStepHandsOver(f, a, d');
    }
  }

  lemma AddIsUnordered<E(!new)>(f: Field<E>, d: State<E>, src: Source<E>)
    requires !d.inOrder
    ensures !Add(f, d, src).inOrder
  {
  }

  // ----- in order: nothing older than the source that is waited for, but what was queued

  /** The longer log continues the other one, with nothing below `bound`. */
  ghost predicate From<E>(log: seq<Source<E>>, longer: seq<Source<E>>, bound: nat) {
    log <= longer && forall i | |log| <= i < |longer| :: bound <= longer[i].id
  }

  /** Nothing older than the source that is waited for is handed over, and the decoder then waits for one that is newer
      than all that is. */
  ghost predicate Forward<E>(d: State<E>, t: State<E>) {
    && From(d.log, t.log, d.firstMissing) && d.firstMissing <= t.firstMissing && t.inOrder == d.inOrder
    && forall i | |d.log| <= i < |t.log| :: t.log[i].id < t.firstMissing
  }

  lemma SameForward<E>(d: State<E>, t: State<E>)
    requires t.log == d.log && t.firstMissing == d.firstMissing && t.inOrder == d.inOrder
    ensures Forward(d, t)
  {
  }

  lemma ForwardTwice<E>(a: State<E>, b: State<E>, c: State<E>)
    requires Forward(a, b) && Forward(b, c)
    ensures Forward(a, c)
  {
  }

  lemma {:induction false} FlushForward<E>(d: State<E>)
    ensures Forward(d, Flush(d))
    decreases |d.ordered|
  {
    var s := d.firstMissing;
    if s in d.ordered && s in d.sources {
      FlushForward(d.(log := d.log + [Source(s, d.sources[s])], ordered := d.ordered - {s}, firstMissing := s + 1));
    }
  }

  lemma AnnounceForward<E>(d: State<E>, src: Source<E>)
    requires d.inOrder
    ensures Forward(d, Announce(d, src))
  {
    if src.id == d.firstMissing {
      FlushForward(d.(log := d.log + [src], firstMissing := d.firstMissing + 1));
    }
  }

  lemma {:induction false} ScanForward<E(!new)>(f: Field<E>, d: State<E>)
    requires Links(d) && d.inOrder
    ensures Forward(d, Scan(f, d, 0))
    decreases |ReadySet(d)|
  {
    hide Scan, Links, ReadySet, Announce, Forward;
    if ReadySet(d) == {} {
      ScanIdle(f, d, 0);
      SameForward(d, d);
    } else {
      var y := LeastReady(d);
      var t, src := ScanFirst(f, d, y);
      var taken := Take(d, y, Min(d.missing[y]));
      SameForward(d, taken);
      AnnounceForward(taken, src);
      ForwardTwice(d, taken, t);
      ScanForward(f, t);
      ForwardTwice(d, t, Scan(f, t, 0));
      SameForward(Scan(f, t, 0), Store(Scan(f, t, 0), src));
      ForwardTwice(d, Scan(f, t, 0), Store(Scan(f, t, 0), src));
    }
  }

  lemma AddForward<E(!new)>(f: Field<E>, d: State<E>, src: Source<E>)
    requires Links(d) && Strippable(d, src.id) && d.inOrder
    ensures Forward(d, Add(f, d, src))
  {
    var a, u := Announce(d, src), Unlink(f, Announce(d, src), src);
    var v := Scan(f, u, 0);
    AnnounceForward(d, src);
    AnnouncedLinks(f, d, src);
    UnlinkKeepsRest(f, a, src);
    hide Scan, Links, Announce, Forward, Unlink, Strippable;
    SameForward(a, u);
    ForwardTwice(d, a, u);
    ScanForward(f, u);
    ForwardTwice(d, u, v);
    SameForward(v, Store(v, src));
    ForwardTwice(d, v, Store(v, src));
  }

  lemma DeliverForward<E>(d: State<E>, src: Source<E>)
    requires d.inOrder
    ensures Forward(d, Deliver(d, src))
  {
    if src.id == d.firstMissing {
      FlushForward(d.(sources := d.sources[src.id := src.data], log := d.log + [src],
                      firstMissing := d.firstMissing + 1));
    }
  }

  lemma {:induction false} DeliverAllForward<E>(d: State<E>, srcs: seq<Source<E>>)
    requires d.inOrder
    ensures Forward(d, DeliverAll(d, srcs))
    decreases |srcs|
  {
    hide Forward, Deliver;
    if srcs == [] {
      SameForward(d, d);
    } else {
      var n := |srcs| - 1;
      DeliverAllForward(d, srcs[..n]);
      DeliverForward(DeliverAll(d, srcs[..n]), srcs[n]);
      ForwardTwice(d, DeliverAll(d, srcs[..n]), DeliverAll(d, srcs));
    }
  }

  lemma FullStepForward<E(!new)>(f: Field<E>, d: State<E>, d': State<E>)
    requires d.inOrder && FullStep(f, d, d')
    ensures Forward(d, d')
  {
    hide Coefficients, Singular, LeftInverse, RebuiltAll, DeliverAll, RepairList, Sorted, Forward;
    if |d.repairs.Keys| == 0 || |d.missing.Keys| == 0 || |d.missing.Keys| > |d.repairs.Keys|
       || Singular(f, Coefficients(f, d)) {
      SameForward(d, d');
    } else {
      var l: Matrix<E> :| Solved(f, d, d', l);
      var srcs := RebuiltAll(f, l, RepairList(d), Sorted(d.missing.Keys));
      DeliverAllForward(d, srcs);
      SameForward(DeliverAll(d, srcs), d');
      ForwardTwice(d, DeliverAll(d, srcs), d');
    }
  }

  lemma SourceForward<E(!new)>(f: Field<E>, d: State<E>, src: Source<E>, d': State<E>)
    requires Takes(f, d, SourcePacket(src), d') && d.inOrder
    ensures Forward(d, d')
  {
    hide FullStep, Add, Strippable, Links, Forward, Balanced, Young;
    if IsOld(d, src.id) || src.id in d.sources {
      SameForward(d, d');
    } else {
      AddForward(f, d, src);
      FullStepForward(f, Add(f, d, src), d');
      ForwardTwice(d, Add(f, d, src), d');
    }
  }

  lemma LoneForward<E(!new)>(f: Field<E>, c: State<E>, s: Repair<E>, x: nat)
    requires Links(c) && c.inOrder && s.id !in c.repairs && s.ids == {x} && x !in c.sources && Alone(c, x)
    ensures Forward(c, Add(f, Take(Link(c, s), x, s.id), Create(f, s)))
  {
    var t, src := Take(Link(c, s), x, s.id), Create(f, s);
    LinkThenTake(c, s, x);
    AloneKeepsLinks(c, t, x);
    CreateId(f, s, x);
    AloneIsStrippable(c, t, x);
    SameForward(c, t);
    hide *;
    AddForward(f, t, src);
    ForwardTwice(c, t, Add(f, t, src));
  }

  lemma UsefulForward<E(!new)>(f: Field<E>, c: State<E>, r: Repair<E>, d': State<E>)
    requires Links(c) && c.inOrder && r.id !in c.repairs && !(r.ids <= c.sources.Keys)
    requires RoomFor(c, r.ids - c.sources.Keys) && UsefulStep(f, c, r, d')
    ensures Forward(c, d')
  {
    hide *;
    var s := UsefulIs(f, c, r, d');
    if |s.ids| == 1 {
      var x := Min(s.ids);
      SingletonIs(s.ids, x);
      RoomIsAlone(c, s.ids, x);
      LoneForward(f, c, s, x);
    } else {
      LinkForward(c, s);
      FullStepForward(f, Link(c, s), d');
      ForwardTwice(c, Link(c, s), d');
    }
  }

  lemma LinkForward<E>(c: State<E>, s: Repair<E>)
    requires c.inOrder
    ensures Forward(c, Link(c, s)) && Link(c, s).inOrder
  {
  }

  ghost function Due<E>(d: State<E>, id: nat): set<nat> {
    set s | s in d.ordered && s < id
  }

  /** Outdating hands over what is queued below the bound, and then nothing older than what is waited for. */
  lemma OutdatingHandsOver<E>(d: State<E>, id: nat)
    requires d.inOrder
    ensures var c := DropOutdated(d, id);
            && c.inOrder && d.firstMissing <= c.firstMissing
            && From(d.log + Deliveries(Sorted(Due(d, id)), d.sources), c.log, d.firstMissing)
  {
    FlushForward(HandOver(DropRepairs(d, id), id));
  }

  lemma {:induction false} DueLogged<E>(ids: set<nat>, sources: map<nat, seq<E>>, s: nat)
    ensures InLog(Deliveries(Sorted(ids), sources), s) <==> s in ids
  {
    if s in ids {
      DeliveriesLogged(ids, sources, s);
    }
    if InLog(Deliveries(Sorted(ids), sources), s) {
      var i :| 0 <= i < |Sorted(ids)| && Deliveries(Sorted(ids), sources)[i].id == s;
      assert Sorted(ids)[i] in Sorted(ids);
    }
  }

  lemma OldOnesHandedOver<E>(log: seq<Source<E>>, queued: seq<Source<E>>, longer: seq<Source<E>>, bound: nat, s: nat)
    requires From(log + queued, longer, bound) && s < bound
    ensures log <= longer && (InLog(longer[|log|..], s) <==> InLog(queued, s))
  {
    var more := longer[|log|..];
    if i :| 0 <= i < |queued| && queued[i].id == s {
      assert more[i] == (log + queued)[|log| + i];
    }
    if i :| 0 <= i < |more| && more[i].id == s {
      assert longer[|log| + i].id == s;
      assert i < |queued| ==> more[i] == (log + queued)[|log| + i];
    }
  }

  lemma FromTwice<E>(a: seq<Source<E>>, b: seq<Source<E>>, c: seq<Source<E>>, x: nat, y: nat)
    requires From(a, b, x) && From(b, c, y) && x <= y
    ensures From(a, c, x)
  {
  }

  lemma RepairForward<E(!new)>(f: Field<E>, d: State<E>, r: Repair<E>, d': State<E>)
    requires Takes(f, d, RepairPacket(r), d') && d.inOrder && r.ids != {} && Processed(d, r)
    ensures From(d.log + Deliveries(Sorted(Due(d, Min(r.ids))), d.sources), d'.log, d.firstMissing)
  {
    var c := DropOutdated(d, Min(r.ids));
    OutdatingLinks(f, d, Min(r.ids));
    OutdatingIs(d, Min(r.ids));
    OutdatingHandsOver(d, Min(r.ids));
    assert r.id !in c.repairs.Keys;
    hide DropOutdated, Links, FullStep, UsefulStep, Forward, Young, RepairKeepsIterators, RoomFor, From;
    if r.ids <= c.sources.Keys {
      SameForward(c, d');
    } else {
      UsefulForward(f, c, r, d');
    }
    ForwardIs(c, d');
    FromTwice(d.log + Deliveries(Sorted(Due(d, Min(r.ids))), d.sources), c.log, d'.log, d.firstMissing, c.firstMissing);
  }

  lemma ForwardIs<E>(d: State<E>, t: State<E>)
    requires Forward(d, t)
    ensures From(d.log, t.log, d.firstMissing)
  {
  }

  /** In order, something older than the source that is waited for is handed over exactly when it is queued and a repair
      outdates it. */
  lemma OlderHandedOverExactly<E(!new)>(f: Field<E>, d: State<E>, p: Packet<E>, d': State<E>, s: nat)
    requires Takes(f, d, p, d') && d.inOrder && s < d.firstMissing
    ensures d.log <= d'.log
    ensures InLog(d'.log[|d.log|..], s)
       <==> p.RepairPacket? && p.repair.ids != {} && Processed(d, p.repair) && s in d.ordered && s < Min(p.repair.ids)
  {
    match p
    case SourcePacket(src) =>
      SourceForward(f, d, src, d');
      ForwardIs(d, d');
      hide Takes, Forward;
      assert d.log + [] == d.log;
      OldOnesHandedOver(d.log, [], d'.log, d.firstMissing, s);
    case RepairPacket(r) =>
      if Processed(d, r) {
        var due := Due(d, Min(r.ids));
        RepairForward(f, d, r, d');
        hide Takes, From;
        DueLogged(due, d.sources, s);
        OldOnesHandedOver(d.log, Deliveries(Sorted(due), d.sources), d'.log, d.firstMissing, s);
      } else {
        assert d' == d;
        assert d.log[|d.log|..] == [];
      }
  }

  /** Everything handed over is older than the source that is waited for. */
  ghost predicate Behind<E>(d: State<E>) {
    forall i | 0 <= i < |d.log| :: d.log[i].id < d.firstMissing
  }

  lemma ForwardBehind<E>(d: State<E>, t: State<E>)
    requires Forward(d, t) && Behind(d)
    ensures Behind(t)
  {
    forall i | 0 <= i < |t.log|
      ensures t.log[i].id < t.firstMissing
    {
      assert i < |d.log| ==> t.log[i] == d.log[i];
    }
  }

  lemma HandOverBehind<E>(d: State<E>, id: nat)
    requires Behind(d)
    ensures Behind(HandOver(d, id))
  {
    var due := set s | s in d.ordered && s < id;
    var ids := Sorted(due);
    forall i | 0 <= i < |ids|
      ensures ids[i] < id
    {
      assert ids[i] in ids;
    }
  }

  lemma OutdatingBehind<E>(d: State<E>, id: nat)
    requires d.inOrder && Behind(d)
    ensures Behind(DropOutdated(d, id)) && DropOutdated(d, id).inOrder
  {
    var dropped := DropRepairs(d, id);
    HandOverBehind(dropped, id);
    FlushForward(HandOver(dropped, id));
    ForwardBehind(HandOver(dropped, id), Release(dropped, id));
    hide HandOver, Flush, Forward;
  }

  lemma RepairBehind<E(!new)>(f: Field<E>, d: State<E>, r: Repair<E>, d': State<E>)
    requires Takes(f, d, RepairPacket(r), d') && d.inOrder && r.ids != {} && Processed(d, r) && Behind(d)
    ensures Behind(d') && d'.inOrder
  {
    var c := DropOutdated(d, Min(r.ids));
    OutdatingLinks(f, d, Min(r.ids));
    OutdatingIs(d, Min(r.ids));
    OutdatingBehind(d, Min(r.ids));
    assert r.id !in c.repairs.Keys;
    hide DropOutdated, Links, FullStep, UsefulStep, Forward, Young, RepairKeepsIterators, RoomFor, Behind;
    if r.ids <= c.sources.Keys {
      SameForward(c, d');
    } else {
      UsefulForward(f, c, r, d');
    }
    ForwardBehind(c, d');
    ForwardMode(c, d');
  }

  lemma ForwardMode<E>(d: State<E>, t: State<E>)
    requires Forward(d, t)
    ensures t.inOrder == d.inOrder
  {
  }

  lemma StaysBehind<E(!new)>(f: Field<E>, d: State<E>, p: Packet<E>, d': State<E>)
    requires Takes(f, d, p, d') && d.inOrder && Behind(d)
    ensures Behind(d') && d'.inOrder
  {
    match p
    case SourcePacket(src) =>
      SourceForward(f, d, src, d');
      hide Takes, Forward, Behind;
      ForwardBehind(d, d');
      ForwardMode(d, d');
    case RepairPacket(r) =>
      if Processed(d, r) {
        RepairBehind(f, d, r, d');
      } else {
        assert d' == d;
      }
  }

  lemma {:induction false} AllBehind<E(!new)>(f: Field<E>, ds: seq<State<E>>, ps: seq<Packet<E>>, i: nat)
    requires Continues(f, ds, ps) && ds[0] == Initial(true) && i < |ds|
    ensures Behind(ds[i]) && ds[i].inOrder
  {
    hide *;
    if i == 0 {
      StartsBehind<E>();
    } else {
      AllBehind(f, ds, ps, i - 1);
      PacketAt(f, ds, ps, i - 1);
      StaysBehind(f, ds[i - 1], ps[i - 1], ds[i]);
    }
  }

  lemma StartsBehind<E>()
    ensures Behind(Initial<E>(true)) && Initial<E>(true).inOrder
  {
  }

  lemma PacketAt<E(!new)>(f: Field<E>, ds: seq<State<E>>, ps: seq<Packet<E>>, i: nat)
    requires Continues(f, ds, ps) && (i < |ps| || i + 1 < |ds|)
    ensures |ds| == |ps| + 1 && Takes(f, ds[i], ps[i], ds[i + 1])
  {
    hide Takes;
  }

  /** From the empty decoder and in order, whatever arrives for which the code is defined: an identifier that was handed
      over is handed over again exactly when it is queued and a repair outdates it. */
  lemma HandedOverAgainExactly<E(!new)>(f: Field<E>, ds: seq<State<E>>, ps: seq<Packet<E>>, i: nat, s: nat)
    requires Continues(f, ds, ps) && ds[0] == Initial(true) && i < |ps| && InLog(ds[i].log, s)
    ensures ds[i].log <= ds[i + 1].log
    ensures InLog(ds[i + 1].log[|ds[i].log|..], s)
       <==> ps[i].RepairPacket? && ps[i].repair.ids != {} && Processed(ds[i], ps[i].repair)
            && s in ds[i].ordered && s < Min(ps[i].repair.ids)
  {
    hide *;
    PacketAt(f, ds, ps, i);
    AllBehind(f, ds, ps, i);
    LoggedIsOlder(ds[i], s);
    OlderHandedOverExactly(f, ds[i], ps[i], ds[i + 1], s);
  }

  lemma LoggedIsOlder<E>(d: State<E>, s: nat)
    requires Behind(d) && InLog(d.log, s)
    ensures s < d.firstMissing
  {
  }
}
