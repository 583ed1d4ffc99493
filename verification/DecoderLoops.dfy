/** The loops of the decoder's methods, against the functions of `DecoderModel.dfy`: what has been done to
    the containers when part of the work remains. */
module DecoderLoops {
  import opened Wrappers
  import opened GaloisField
  import opened LinearAlgebra
  import opened Ids
  import opened Symbols
  import opened DecoderModel
  import opened Peeling
  import opened Delivery
  import opened DecoderInvariant
  import opened FullDecoding
  import opened DecoderSteps
  import opened SavedIterator

  /** Every key of a sorted container after `k`. */
  function After(s: set<nat>, k: nat): set<nat> {
    set x | x in s && k < x
  }

  /** The queue goes on with the next key exactly when it holds the next source. */
  lemma FlushOnce<E>(d: State<E>)
    requires d.firstMissing in d.ordered && d.firstMissing in d.sources
    ensures var s := d.firstMissing;
            Flush(d)
            == Flush(d.(log := d.log + [Source(s, d.sources[s])], ordered := d.ordered - {s}, firstMissing := s + 1))
  {
  }

  lemma FlushDone<E>(d: State<E>)
    ensures d.firstMissing !in d.ordered ==> Flush(d) == d
  {
  }

  lemma NextInQueue(ordered: set<nat>, cit: nat)
    ensures After(ordered, cit) == {} ==> cit + 1 !in ordered
    ensures After(ordered, cit) != {} && Min(After(ordered, cit)) > cit + 1 ==> cit + 1 !in ordered
  {
    assert cit + 1 in ordered ==> cit + 1 in After(ordered, cit);
  }

  lemma CreateIsScale<E(!new)>(f: Field<E>, r: Repair<E>, id: nat)
    requires r.ids == {id}
    ensures var inverse := f.inv(f.Coefficient(r.id, id));
            var size := f.dec(f.Scale(inverse, r.size));
            && |Create(f, r).data| == size
            && (size <= |r.symbol| ==> Create(f, r) == Source(id, f.Scale(inverse, r.symbol[..size])))
  {
    assert Min(r.ids) == id;
    var inverse := f.inv(f.Coefficient(r.id, id));
    var size := f.dec(f.Scale(inverse, r.size));
    if size <= |r.symbol| {
      var a, b := Create(f, r).data, f.Scale(inverse, r.symbol[..size]);
      assert |a| == size && |b| == size;
      forall i | 0 <= i < size
        ensures a[i] == b[i]
      {
        assert f.At(r.symbol, i) == r.symbol[..size][i];
        assert b[i] == f.mul(inverse, r.symbol[..size][i]);
        assert a[i] == f.mul(inverse, f.At(r.symbol, i));
      }
      assert a == b;
    }
  }

  /** Rebuilding the only source of a right repair reads no more than its symbol. */
  lemma CreateInBounds<E(!new)>(f: Field<E>, truth: Truth<E>, r: Repair<E>, id: nat)
    requires f.Laws() && TruthOk(f, truth) && RepairOk(f, truth, r) && r.ids == {id}
    ensures var inverse := f.inv(f.Coefficient(r.id, id));
            var size := f.dec(f.Scale(inverse, r.size));
            size <= |r.symbol| && Create(f, r) == Source(id, f.Scale(inverse, r.symbol[..size]))
  {
    hide Create;
    CreateOk(f, truth, r, id);
    CreateIsScale(f, r, id);
  }

  /** The repairs after the source has been removed from those of `links` that are not in `todo`. */
  ghost function PartlyStripped<E(!new)>(f: Field<E>, repairs: map<nat, Repair<E>>, links: set<nat>, todo: set<nat>,
          src: Source<E>): map<nat, Repair<E>> {
    map k | k in repairs :: if k in links && k !in todo then Strip(f, repairs[k], src) else repairs[k]
  }

  lemma StripOneMore<E(!new)>(f: Field<E>, repairs: map<nat, Repair<E>>, links: set<nat>, todo: set<nat>,
          src: Source<E>, k: nat)
    requires k in todo && k in links && k in repairs
    ensures PartlyStripped(f, repairs, links, todo - {k}, src)
         == PartlyStripped(f, repairs, links, todo, src)[k := Strip(f, repairs[k], src)]
  {
  }

  /** What `remove_source_from_repair` asserts, for a repair linked with a new source. */
  lemma LinkedIsStrippable<E(!new)>(f: Field<E>, truth: Truth<E>, d: State<E>, src: Source<E>, k: nat)
    requires Links(d) && RepairsRight(f, truth, d) && Strippable(d, src.id)
    requires src.id in truth && truth[src.id] == src.data
    requires src.id in d.missing && k in d.missing[src.id]
    ensures k in d.repairs && src.id in d.repairs[k].ids
    ensures |d.repairs[k].ids| > 1 && |src.data| <= |d.repairs[k].symbol|
  {
    if |d.repairs[k].ids| <= 1 {
      SubsetSize({src.id}, d.repairs[k].ids);
    }
  }

  lemma AllStripped<E(!new)>(f: Field<E>, d: State<E>, src: Source<E>)
    requires src.id in d.missing
    ensures PartlyStripped(f, d.repairs, d.missing[src.id], {}, src) == Unlink(f, d, src).repairs
  {
  }

  lemma UnlinkShrinks<E(!new)>(f: Field<E>, d: State<E>, src: Source<E>)
    ensures |Unlink(f, Announce(d, src), src).missing.Keys| <= |d.missing.Keys|
  {
    SubsetSize(Unlink(f, Announce(d, src), src).missing.Keys, d.missing.Keys);
  }

  /** One round of the scan. */
  lemma SavedRound<E(!new)>(f: Field<E>, truth: Truth<E>, d: State<E>, y: nat, pending: set<nat>)
    requires f.Laws() && TruthOk(f, truth) && Good(f, truth, d, pending)
    requires ScanSaved(f, d, Some(y)).Some?
    ensures y in d.missing
    ensures Ready(d, y) ==>
      var taken, src := Take(d, y, Min(d.missing[y])), Create(f, d.repairs[Min(d.missing[y])]);
      var added := Add(f, taken, src);
      && AddSaved(f, taken, src).Some?
      && ScanSaved(f, d, Some(y)) == ScanSaved(f, added, Successor(d, y))
      && Good(f, truth, added, pending)
      && |added.missing.Keys| < |d.missing.Keys|
    ensures !Ready(d, y) ==>
      && ScanSaved(f, d, Some(y)) == ScanSaved(f, d, Successor(d, y))
      && Steps(d, Successor(d, y)) < Steps(d, Some(y))
  {
    hide Good, Create, AddSaved, Add, Successor, Steps, Strippable, Links, ReadyNeighbours;
    FewerSteps(d, y);
    if Ready(d, y) {
      var k := TakenGood(f, truth, d, y, pending);
      var added := DecodeGood(f, truth, d, y, pending);
      GoodGives(f, truth, Take(d, y, k), pending);
      AddSavedExactly(f, Take(d, y, k), Create(f, d.repairs[k]));
    }
  }

  lemma ScanSavedEnds<E(!new)>(f: Field<E>, d: State<E>)
    ensures ScanSaved(f, d, None) == Some(d)
  {
  }

  /** Using up a repair with a single unknown source. */
  lemma LoneSaved<E(!new)>(f: Field<E>, truth: Truth<E>, d: State<E>, s: Repair<E>, x: nat)
    requires f.Laws() && TruthOk(f, truth) && Good(f, truth, d, {}) && RepairOk(f, truth, s)
    requires s.id !in d.repairs && s.ids == {x} && x !in d.sources && RoomFor(d, s.ids)
    requires LoneKeepsIterators(d, s.ids)
    ensures AddSaved(f, Take(Link(d, s), x, s.id), Create(f, s)).Some?
  {
    hide *;
    var t := Take(Link(d, s), x, s.id);
    var u := d.(missing := d.missing - {x});
    assert |s.ids| == 1;
    DegreeOneReady(f, truth, d, s, x);
    GoodGives(f, truth, d, {});
    GoodGives(f, truth, t, {});
    LinkThenTake(d, s, x);
    assert t.missing == u.missing;
    SameReady(u, t);
    SameNeighbours(u, t);
    LoneMeans(d, s, x);
    NotMissingUnlinks(f, t, Create(f, s));
    AddSavedExactly(f, t, Create(f, s));
  }

  lemma LoneMeans<E>(d: State<E>, s: Repair<E>, x: nat)
    requires LoneKeepsIterators(d, s.ids) && s.ids == {x} && |s.ids| == 1
    ensures !ReadyNeighbours(d.(missing := d.missing - {x}))
  {
    hide ReadyNeighbours;
  }

  lemma NotMissingUnlinks<E(!new)>(f: Field<E>, d: State<E>, src: Source<E>)
    requires src.id !in d.missing
    ensures Unlink(f, d, src) == d
  {
  }

  lemma SameReady<E>(d: State<E>, t: State<E>)
    requires t.missing == d.missing && t.repairs == d.repairs
    ensures ReadySet(t) == ReadySet(d)
  {
  }

  lemma ReadyToAnnounce<E(!new)>(f: Field<E>, truth: Truth<E>, d: State<E>, src: Source<E>, pending: set<nat>)
    requires Good(f, truth, d, pending) && Strippable(d, src.id)
    ensures d.inOrder ==> d.ordered <= d.sources.Keys
    ensures var a := Announce(d, src);
            Links(a) && RepairsRight(f, truth, a) && Strippable(a, src.id)
  {
    SameLinks(d, Announce(d, src));
  }

  lemma PendingNotStored<E(!new)>(f: Field<E>, truth: Truth<E>, d: State<E>, pending: set<nat>, s: nat)
    requires Good(f, truth, d, pending) && s in pending
    ensures s !in d.sources
  {
  }

  // ----- links removed one at a time

  /** The links after repair `k` has been removed from those of the sources in `ids`. */
  ghost function Unlinked(missing: map<nat, set<nat>>, ids: set<nat>, k: nat): map<nat, set<nat>> {
    map m | m in missing :: if m in ids then missing[m] - {k} else missing[m]
  }

  lemma UnlinkedIsAll<E>(d: State<E>, k: nat)
    requires Links(d) && k in d.repairs
    ensures Unlinked(d.missing, d.repairs[k].ids, k) == map m | m in d.missing :: d.missing[m] - {k}
  {
    forall m | m in d.missing && m !in d.repairs[k].ids
      ensures d.missing[m] - {k} == d.missing[m]
    {
      assert k !in d.missing[m];
    }
  }

  lemma DroppedNone<E>(d: State<E>, id: nat, t: State<E>)
    requires t == d.(lastId := Some(id))
    ensures PartlyDropped(d, id, d.repairs.Keys, t)
  {
    assert Outdated(d, id) - d.repairs.Keys == {};
    assert d.repairs - {} == d.repairs;
    assert forall m | m in d.missing :: d.missing[m] - {} == d.missing[m];
    assert d.missing == map m | m in d.missing :: d.missing[m] - {};
  }

  /** The state of `drop_outdated`'s first loop when the repairs in `todo` have yet to be looked at. */
  ghost predicate PartlyDropped<E>(d: State<E>, id: nat, todo: set<nat>, t: State<E>) {
    var gone := Outdated(d, id) - todo;
    && t.repairs == d.repairs - gone
    && t.missing == (map m | m in d.missing :: d.missing[m] - gone)
    && t == d.(lastId := Some(id), repairs := t.repairs, missing := t.missing)
  }

  lemma DropStep<E>(d: State<E>, id: nat, todo: set<nat>, t: State<E>, k: nat)
    requires Links(d) && PartlyDropped(d, id, todo, t) && k in todo && todo <= d.repairs.Keys
    ensures k in t.repairs && t.repairs[k] == d.repairs[k] && d.repairs[k].ids <= t.missing.Keys
    ensures Min(d.repairs[k].ids) < id ==>
      PartlyDropped(d, id, todo - {k},
                    t.(repairs := t.repairs - {k}, missing := Unlinked(t.missing, d.repairs[k].ids, k)))
    ensures Min(d.repairs[k].ids) >= id ==> PartlyDropped(d, id, todo - {k}, t)
  {
    var gone := Outdated(d, id) - todo;
    if Min(d.repairs[k].ids) < id {
      assert k in Outdated(d, id);
      assert Outdated(d, id) - (todo - {k}) == gone + {k};
      assert t.repairs - {k} == d.repairs - (gone + {k});
      UnlinkedStep(d, gone, t.missing, k);
    } else {
      assert Outdated(d, id) - (todo - {k}) == gone;
    }
  }

  lemma UnlinkedStep<E>(d: State<E>, gone: set<nat>, missing: map<nat, set<nat>>, k: nat)
    requires Links(d) && k in d.repairs
    requires missing == map m | m in d.missing :: d.missing[m] - gone
    ensures Unlinked(missing, d.repairs[k].ids, k) == map m | m in d.missing :: d.missing[m] - (gone + {k})
  {
    forall m | m in d.missing
      ensures Unlinked(missing, d.repairs[k].ids, k)[m] == d.missing[m] - (gone + {k})
    {
      if m !in d.repairs[k].ids {
        assert k !in d.missing[m];
      }
    }
  }

  lemma DroppedAll<E>(d: State<E>, id: nat, t: State<E>)
    requires PartlyDropped(d, id, {}, t)
    ensures t == DropRepairs(d, id)
  {
    assert Outdated(d, id) - {} == Outdated(d, id);
  }

  lemma DeliverFirst<E>(due: set<nat>, sources: map<nat, seq<E>>)
    requires due != {} && due <= sources.Keys
    ensures Deliveries(Sorted(due), sources)
         == [Source(Min(due), sources[Min(due)])] + Deliveries(Sorted(due - {Min(due)}), sources)
  {
    var rest := Sorted(due - {Min(due)});
    assert Sorted(due) == [Min(due)] + rest;
    DeliverCons(Min(due), rest, sources);
  }

  lemma NoDeliveries<E>(sources: map<nat, seq<E>>)
    ensures Deliveries(Sorted({}), sources) == []
  {
  }

  lemma DeliverCons<E>(s: nat, rest: seq<nat>, sources: map<nat, seq<E>>)
    requires s in sources
    ensures Deliveries([s] + rest, sources) == [Source(s, sources[s])] + Deliveries(rest, sources)
  {
  }

  /** Of the sources in `all`, those in `due` have yet to be handed over. */
  ghost predicate HandingOver<E>(d: State<E>, all: set<nat>, due: set<nat>, t: State<E>) {
    && t.ordered == d.ordered - (all - due)
    && t.log + Deliveries(Sorted(due), d.sources) == d.log + Deliveries(Sorted(all), d.sources)
    && t == d.(log := t.log, ordered := t.ordered)
  }

  lemma HandingOverStarts<E>(d: State<E>, all: set<nat>)
    ensures HandingOver(d, all, all, d)
  {
    assert d.ordered - (all - all) == d.ordered;
  }

  lemma HandingOverKeeps<E>(d: State<E>, all: set<nat>, due: set<nat>, t: State<E>)
    requires HandingOver(d, all, due, t)
    ensures t == d.(log := t.log, ordered := t.ordered)
  {
  }

  lemma HandOverStep<E>(d: State<E>, all: set<nat>, due: set<nat>, t: State<E>)
    requires HandingOver(d, all, due, t) && due != {} && due <= all && due <= d.sources.Keys
    ensures var s := Min(due);
            HandingOver(d, all, due - {s}, t.(log := t.log + [Source(s, d.sources[s])], ordered := t.ordered - {s}))
  {
    hide Sorted, Deliveries;
    var s := Min(due);
    var rest := Deliveries(Sorted(due - {s}), d.sources);
    DeliverFirst(due, d.sources);
    Associate(t.log, [Source(s, d.sources[s])], rest);
    RemoveOne(d.ordered, all, due, s);
  }

  lemma RemoveOne(ordered: set<nat>, all: set<nat>, due: set<nat>, s: nat)
    requires due <= all && s in due
    ensures ordered - (all - due) - {s} == ordered - (all - (due - {s}))
  {
  }

  lemma HandedOver<E>(d: State<E>, id: nat, t: State<E>)
    requires HandingOver(d, set s | s in d.ordered && s < id, {}, t)
    ensures HandOver(d, id) == t.(firstMissing := if d.firstMissing < id then id else d.firstMissing)
  {
    var all := set s | s in d.ordered && s < id;
    NoDeliveries(d.sources);
    assert all - {} == all;
    assert t.log == d.log + Deliveries(Sorted(all), d.sources);
  }

  lemma KeptNotEmpty<E>(d: State<E>, k: nat)
    requires Links(d) && k in d.repairs
    ensures d.repairs[k].ids != {}
  {
  }

  // ----- full decoding

  lemma RebuiltFrom<E(!new)>(f: Field<E>, l: seq<E>, rs: seq<Repair<E>>, s: nat, size: seq<E>, data: seq<E>)
    requires |l| == |rs| && |size| == f.sizeLen
    requires forall i | 0 <= i < f.sizeLen :: size[i] == Dot(f, l, SizesAt(f, rs, i))
    requires |data| == f.dec(size) && forall i | 0 <= i < |data| :: data[i] == Dot(f, l, SymbolsAt(f, rs, i))
    ensures Rebuilt(f, l, rs, s) == Source(s, data)
  {
    assert size == seq(f.sizeLen, i requires 0 <= i < f.sizeLen => Dot(f, l, SizesAt(f, rs, i)));
    assert Rebuilt(f, l, rs, s).data == data;
  }

  lemma RebuiltId<E(!new)>(f: Field<E>, l: seq<E>, rs: seq<Repair<E>>, s: nat)
    requires |l| == |rs|
    ensures Rebuilt(f, l, rs, s).id == s
  {
  }

  lemma SortedIn(s: set<nat>)
    ensures forall i | 0 <= i < |Sorted(s)| :: Sorted(s)[i] in s
  {
    forall i | 0 <= i < |Sorted(s)|
      ensures Sorted(s)[i] in s
    {
      assert Sorted(s)[i] in Sorted(s);
    }
  }

  lemma ListIs<E>(d: State<E>, rs: seq<Repair<E>>)
    requires |rs| == |Sorted(d.repairs.Keys)|
    requires forall j | 0 <= j < |rs| ::
               Sorted(d.repairs.Keys)[j] in d.repairs && rs[j] == d.repairs[Sorted(d.repairs.Keys)[j]]
    ensures rs == RepairList(d)
  {
  }

  lemma SizesAreRight<E(!new)>(f: Field<E>, truth: Truth<E>, d: State<E>, rs: seq<Repair<E>>)
    requires Good(f, truth, d, {}) && rs == RepairList(d)
    ensures forall j | 0 <= j < |rs| :: |rs[j].size| == f.sizeLen
  {
    forall j | 0 <= j < |rs|
      ensures |rs[j].size| == f.sizeLen
    {
      var k := HeldAt(d, j);
    }
  }

  lemma RebuiltReady<E(!new)>(f: Field<E>, truth: Truth<E>, d: State<E>, l: Matrix<E>)
    requires f.Laws() && TruthOk(f, truth) && Good(f, truth, d, {})
    requires |d.repairs.Keys| == |d.missing.Keys| && LeftInverse(f, l, Coefficients(f, d))
    ensures IsSquare(l, |d.missing.Keys|) && |Coefficients(f, d)| == |d.missing.Keys|
    ensures |RebuiltAll(f, l, RepairList(d), Sorted(d.missing.Keys))| == |d.missing.Keys|
    ensures Deliverable(truth, d, RebuiltAll(f, l, RepairList(d), Sorted(d.missing.Keys)))
    ensures Delivers(d, {}) && SourcesTrue(truth, d) && LogTrue(truth, d.log)
  {
    hide Good, Links, Young, RepairsRight, SourcesTrue, LogTrue, Delivers, System, Deliverable;
    GoodGives(f, truth, d, {});
    HeldSystem(f, truth, d);
    MissingToRebuild(d);
    RebuiltDeliverable(f, truth, d, RepairList(d), Sorted(d.missing.Keys), l);
  }

  /** The next rebuilt source may be stored. */
  lemma DeliverNext<E(!new)>(truth: Truth<E>, d: State<E>, srcs: seq<Source<E>>, k: nat)
    requires Delivers(d, {}) && SourcesTrue(truth, d) && LogTrue(truth, d.log) && Deliverable(truth, d, srcs)
    requires k < |srcs|
    ensures var r := DeliverAll(d, srcs[..k]);
            && srcs[k].id !in r.sources && (r.inOrder ==> r.ordered <= r.sources.Keys)
    ensures DeliverAll(d, srcs[..k + 1]) == Deliver(DeliverAll(d, srcs[..k]), srcs[k])
  {
    DeliverAllDelivers(truth, d, srcs[..k]);
    assert srcs[..k + 1][..k] == srcs[..k];
    forall i | 0 <= i < k
      ensures srcs[..k][i].id < srcs[k].id
    {
      assert srcs[..k][i] == srcs[i];
    }
  }

  lemma RebuiltAt<E(!new)>(f: Field<E>, l: Matrix<E>, rs: seq<Repair<E>>, ms: seq<nat>, k: nat)
    requires |l| == |ms| && (forall j | 0 <= j < |l| :: |l[j]| == |rs|) && k < |ms|
    ensures |RebuiltAll(f, l, rs, ms)| == |ms| && RebuiltAll(f, l, rs, ms)[k] == Rebuilt(f, l[k], rs, ms[k])
    ensures RebuiltAll(f, l, rs, ms)[k].id == ms[k]
  {
  }

  lemma FinishSolve<E(!new)>(f: Field<E>, d: State<E>, t: State<E>, l: Matrix<E>, srcs: seq<Source<E>>)
    requires |d.missing.Keys| == |d.repairs.Keys| && IsSquare(l, |d.missing.Keys|)
    requires LeftInverse(f, l, Coefficients(f, d))
    requires srcs == RebuiltAll(f, l, RepairList(d), Sorted(d.missing.Keys))
    requires |srcs| == |Sorted(d.missing.Keys)| && t == DeliverAll(d, srcs[..|Sorted(d.missing.Keys)|])
    ensures Solved(f, d, t.(repairs := map[], missing := map[], decoded := t.decoded + |t.missing.Keys|), l)
  {
    hide Sorted, RebuiltAll, RepairList, LeftInverse, CoefficientsOf;
    assert srcs[..|Sorted(d.missing.Keys)|] == srcs;
    var d' := t.(repairs := map[], missing := map[], decoded := t.decoded + |t.missing.Keys|);
    assert d' == Solve(f, d, l);
  }

  // ----- stripping and linking an incoming repair

  /** The links after repair `k` has been added to those of the sources in `ids`. */
  ghost function LinkedWith(missing: map<nat, set<nat>>, ids: set<nat>, k: nat): map<nat, set<nat>> {
    map m | m in missing.Keys + ids ::
      (if m in missing then missing[m] else {}) + (if m in ids then {k} else {})
  }

  lemma LinkedWithNone(missing: map<nat, set<nat>>, k: nat)
    ensures LinkedWith(missing, {}, k) == missing
  {
    assert missing.Keys + {} == missing.Keys;
    assert forall m | m in missing :: missing[m] + {} == missing[m];
  }

  lemma LinkedWithOneMore(missing: map<nat, set<nat>>, ids: set<nat>, k: nat, s: nat)
    requires s !in ids
    ensures var before := LinkedWith(missing, ids, k);
            && (s in before <==> s in missing)
            && (s in before ==> LinkedWith(missing, ids + {s}, k) == before[s := before[s] + {k}])
            && (s !in before ==> LinkedWith(missing, ids + {s}, k) == before[s := {k}])
  {
    assert missing.Keys + (ids + {s}) == missing.Keys + ids + {s};
    if s in missing {
      assert missing[s] + {} + {k} == missing[s] + {k};
    } else {
      assert {} + {k} == {k};
    }
  }

  /** The loop over the identifiers of an incoming repair, the ones in `todo` being left: `cur` is the
      repair so far, and `missing` the links so far. */
  ghost predicate Linking<E(!new)>(f: Field<E>, d: State<E>, r: Repair<E>, todo: set<nat>, cur: Repair<E>,
          missing: map<nat, set<nat>>) {
    && todo <= r.ids
    && cur.id == r.id
    && cur.ids == todo + (r.ids - d.sources.Keys)
    && StripKnown(f, cur, d.sources, todo * d.sources.Keys) == StripKnown(f, r, d.sources, r.ids * d.sources.Keys)
    && missing == LinkedWith(d.missing, r.ids - d.sources.Keys - todo, r.id)
  }

  lemma LinkingStarts<E(!new)>(f: Field<E>, d: State<E>, r: Repair<E>)
    ensures Linking(f, d, r, r.ids, r, d.missing)
  {
    assert r.ids + (r.ids - d.sources.Keys) == r.ids;
    assert r.ids - d.sources.Keys - r.ids == {};
    LinkedWithNone(d.missing, r.id);
  }

  lemma LinkingEnds<E(!new)>(f: Field<E>, d: State<E>, r: Repair<E>, cur: Repair<E>, missing: map<nat, set<nat>>)
    requires Linking(f, d, r, {}, cur, missing)
    ensures cur == StripKnown(f, r, d.sources, r.ids * d.sources.Keys)
    ensures cur.ids == r.ids - d.sources.Keys
    ensures d.(repairs := d.repairs[r.id := cur], missing := missing) == Link(d, cur)
  {
    assert {} * d.sources.Keys == {};
    assert r.ids - d.sources.Keys - {} == r.ids - d.sources.Keys;
  }

  /** A known source is stripped. */
  lemma LinkingStrips<E(!new)>(f: Field<E>, truth: Truth<E>, d: State<E>, r: Repair<E>, todo: set<nat>,
          cur: Repair<E>, missing: map<nat, set<nat>>)
    requires f.Laws() && TruthOk(f, truth) && SourcesTrue(truth, d) && RepairOk(f, truth, cur)
    requires Linking(f, d, r, todo, cur, missing) && todo != {} && Max(todo) in d.sources
    requires !(r.ids <= d.sources.Keys)
    ensures var s := Max(todo);
            var src := Source(s, d.sources[s]);
            && s in cur.ids && |cur.ids| > 1 && |src.data| <= |cur.symbol|
            && RepairOk(f, truth, Strip(f, cur, src))
            && Linking(f, d, r, todo - {s}, Strip(f, cur, src), missing)
  {
    var s := Max(todo);
    var src := Source(s, d.sources[s]);
    var e :| e in r.ids && e !in d.sources;
    SubsetSize({s, e}, cur.ids);
    StripOk(f, truth, cur, src);
    KnownMax(todo, d.sources.Keys, s);
    hide RepairOk;
    assert cur.ids - {s} == todo - {s} + (r.ids - d.sources.Keys);
    assert r.ids - d.sources.Keys - (todo - {s}) == r.ids - d.sources.Keys - todo;
  }

  lemma KnownMax(todo: set<nat>, known: set<nat>, s: nat)
    requires todo != {} && s == Max(todo) && s in known
    ensures todo * known != {} && Max(todo * known) == s && todo * known - {s} == (todo - {s}) * known
  {
    assert s in todo * known;
  }

  /** An unknown source is linked with the repair. */
  lemma LinkingLinks<E(!new)>(f: Field<E>, d: State<E>, r: Repair<E>, todo: set<nat>, cur: Repair<E>,
          missing: map<nat, set<nat>>)
    requires Linking(f, d, r, todo, cur, missing) && todo != {} && Max(todo) !in d.sources
    ensures var s := Max(todo);
            Linking(f, d, r, todo - {s}, cur, missing[s := if s in missing then missing[s] + {r.id} else {r.id}])
  {
    var s := Max(todo);
    var done := r.ids - d.sources.Keys - todo;
    assert r.ids - d.sources.Keys - (todo - {s}) == done + {s};
    LinkedWithOneMore(d.missing, done, r.id, s);
    assert todo - {s} + (r.ids - d.sources.Keys) == todo + (r.ids - d.sources.Keys);
    assert (todo - {s}) * d.sources.Keys == todo * d.sources.Keys;
  }

  /** A degree-one repair that may arrive can be used up at once. */
  lemma DegreeOneReady<E(!new)>(f: Field<E>, truth: Truth<E>, d: State<E>, s: Repair<E>, x: nat)
    requires f.Laws() && TruthOk(f, truth) && Good(f, truth, d, {}) && RepairOk(f, truth, s)
    requires s.id !in d.repairs && s.ids == {x} && x !in d.sources && RoomFor(d, s.ids)
    ensures x in truth && Create(f, s) == Source(x, truth[x])
    ensures var t := Take(Link(d, s), x, s.id);
            && Good(f, truth, t, {}) && Strippable(t, x)
            && t.sources == d.sources && Low(t) == Low(d)
  {
    hide Good, Take, Link;
    CreateOk(f, truth, s, x);
    assert |s.ids| == 1;
    DegreeOneTaken(f, truth, d, s, x);
  }

  lemma RoomForMore<E>(d: State<E>, rest: set<nat>)
    requires RoomFor(d, rest) && rest != {} && |rest| != 1
    ensures |d.repairs.Keys| + 1 <= |d.missing.Keys + rest|
    ensures |d.missing.Keys + rest| >= 2
  {
    hide Alone;
    assert |rest| >= 2;
    SubsetSize(rest, d.missing.Keys + rest);
  }

  lemma LinkStores<E>(d: State<E>, s: Repair<E>)
    ensures s.id in Link(d, s).repairs && Link(d, s).repairs[s.id] == s
  {
  }

  lemma TakeIs<E>(d: State<E>, x: nat, k: nat, t: State<E>)
    requires t == d.(repairs := d.repairs - {k}, missing := d.missing - {x}, decoded := d.decoded + 1)
    ensures t == Take(d, x, k)
  {
  }
}
