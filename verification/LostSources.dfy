/** What becomes of a source that has been passed over: whatever arrives afterwards for which the code is defined, it is
    not handed over, as long as no repair asks for it again once it has been erased. */
module LostSources {
  import opened GaloisField
  import opened LinearAlgebra
  import opened Ids
  import opened Symbols
  import opened DecoderModel
  import opened EncoderModel
  import opened Peeling
  import opened Delivery
  import opened DecoderInvariant
  import opened DecoderSteps
  import opened InOrderDelivery
  import opened NestedDecoding
  import opened Limits
  import opened Transmission
  import opened Processing

  /** The source is stored and waited for, or older than the one that is waited for. */
  ghost predicate Stuck<E>(d: State<E>, s: nat) {
    s < d.firstMissing || (s == d.firstMissing && s in d.sources)
  }

  /** Neither handed over nor queued, and nothing that is held would bring it back. */
  ghost predicate Lost<E>(d: State<E>, s: nat) {
    && d.inOrder && Stuck(d, s)
    && !InLog(d.log, s) && s !in d.ordered
    && s !in d.missing && (forall k | k in d.repairs :: s !in d.repairs[k].ids)
  }

  // ----- only what is queued is handed over later

  lemma InLogOfSum<E>(log: seq<Source<E>>, more: seq<Source<E>>, s: nat)
    requires InLog(log + more, s)
    ensures InLog(log, s) || InLog(more, s)
  {
    var i :| 0 <= i < |log + more| && (log + more)[i].id == s;
    if i < |log| {
      assert log[i].id == s;
    } else {
      assert more[i - |log|].id == s;
    }
  }

  lemma {:induction false} FlushLogsQueued<E>(d: State<E>, s: nat)
    requires InLog(Flush(d).log, s)
    ensures InLog(d.log, s) || s in d.ordered
    decreases |d.ordered|
  {
    var m := d.firstMissing;
    if m in d.ordered && m in d.sources {
      var src := Source(m, d.sources[m]);
      FlushLogsQueued(d.(log := d.log + [src], ordered := d.ordered - {m}, firstMissing := m + 1), s);
      if InLog(d.log + [src], s) {
        InLogOfSum(d.log, [src], s);
      }
    }
  }

  lemma HandOverLogsQueued<E>(d: State<E>, id: nat, s: nat)
    requires InLog(HandOver(DropRepairs(d, id), id).log, s)
    ensures InLog(d.log, s) || s in d.ordered
  {
    var due := Sorted(set x | x in d.ordered && x < id);
    InLogOfSum(d.log, Deliveries(due, d.sources), s);
    if InLog(Deliveries(due, d.sources), s) {
      var i :| 0 <= i < |due| && Deliveries(due, d.sources)[i].id == s;
      assert due[i] in due;
    }
  }

  // ----- delivery

  lemma {:induction false} FlushDequeues<E>(d: State<E>)
    ensures Flush(d).ordered <= d.ordered
    decreases |d.ordered|
  {
    var s := d.firstMissing;
    if s in d.ordered && s in d.sources {
      FlushDequeues(d.(log := d.log + [Source(s, d.sources[s])], ordered := d.ordered - {s}, firstMissing := s + 1));
    }
  }

  lemma FlushLost<E>(d: State<E>, s: nat)
    requires Lost(d, s)
    ensures Lost(Flush(d), s)
  {
    FlushLogs(d);
    FlushDequeues(d);
    if InLog(Flush(d).log, s) {
      FlushLogsQueued(d, s);
    }
    if s == d.firstMissing {
      assert Flush(d) == d;
    }
  }

  lemma LoggedOther<E>(log: seq<Source<E>>, src: Source<E>, s: nat)
    requires !InLog(log, s) && src.id != s
    ensures !InLog(log + [src], s)
  {
    if InLog(log + [src], s) {
      InLogOfSum(log, [src], s);
    }
  }

  /** Another source may be announced; the lost one itself only if it is not the one that is waited for. */
  ghost predicate Harmless<E>(d: State<E>, src: Source<E>, s: nat) {
    src.id != s || s < d.firstMissing
  }

  lemma AnnounceLost<E>(d: State<E>, src: Source<E>, s: nat)
    requires Lost(d, s) && Harmless(d, src, s)
    ensures Lost(Announce(d, src), s) && Harmless(Announce(d, src), src, s)
  {
    if src.id == d.firstMissing {
      var t := d.(log := d.log + [src], firstMissing := d.firstMissing + 1);
      LoggedOther(d.log, src, s);
      FlushLost(t, s);
      FlushLogs(t);
    }
  }

  lemma DeliverLost<E>(d: State<E>, src: Source<E>, s: nat)
    requires Lost(d, s) && src.id != s
    ensures Lost(Deliver(d, src), s)
  {
    if src.id == d.firstMissing {
      var t := d.(sources := d.sources[src.id := src.data], log := d.log + [src], firstMissing := d.firstMissing + 1);
      LoggedOther(d.log, src, s);
      FlushLost(t, s);
    }
  }

  lemma {:induction false} DeliverAllLost<E>(d: State<E>, srcs: seq<Source<E>>, s: nat)
    requires Lost(d, s) && forall k | 0 <= k < |srcs| :: srcs[k].id != s
    ensures Lost(DeliverAll(d, srcs), s)
    decreases |srcs|
  {
    hide Lost, Deliver;
    if srcs != [] {
      DeliverAllLost(d, srcs[..|srcs| - 1], s);
      DeliverLost(DeliverAll(d, srcs[..|srcs| - 1]), srcs[|srcs| - 1], s);
    }
  }

  // ----- the recursion

  lemma UnlinkLost<E(!new)>(f: Field<E>, d: State<E>, src: Source<E>, s: nat)
    requires Lost(d, s)
    ensures Lost(Unlink(f, d, src), s) && Unlink(f, d, src).firstMissing == d.firstMissing
    ensures Unlink(f, d, src).missing.Keys <= d.missing.Keys
  {
  }

  lemma TakeLost<E>(d: State<E>, y: nat, k: nat, s: nat)
    requires Lost(d, s)
    ensures Lost(Take(d, y, k), s)
  {
  }

  lemma StoreLost<E>(d: State<E>, src: Source<E>, s: nat)
    requires Lost(d, s) && Harmless(d, src, s)
    ensures Lost(Store(d, src), s)
  {
  }

  /** What is decoded from a held repair is another source. */
  lemma DecodedIsOther<E(!new)>(f: Field<E>, d: State<E>, y: nat, s: nat)
    requires Lost(d, s) && Ready(d, y)
    ensures Create(f, d.repairs[Min(d.missing[y])]).id != s
  {
    var r := d.repairs[Min(d.missing[y])];
    assert r.ids != {};
    assert Min(r.ids) in r.ids;
  }

  lemma {:induction false} ScanLost<E(!new)>(f: Field<E>, d: State<E>, from: nat, s: nat)
    requires Lost(d, s)
    ensures Lost(Scan(f, d, from), s) && d.firstMissing <= Scan(f, d, from).firstMissing
    decreases |d.missing.Keys|, 1, |Above(d, from)|
  {
    hide Lost, Create, Add, Take;
    if Above(d, from) != {} {
      var y := Min(Above(d, from));
      if Ready(d, y) {
        var k := Min(d.missing[y]);
        var added := DecodeLost(f, d, y, s);
        ScanRound(f, d, from, y);
        ScanLost(f, added, y + 1, s);
      } else {
        ScanSkips(f, d, from, y);
        ScanLost(f, d, y + 1, s);
      }
    }
  }

  lemma ScanRound<E(!new)>(f: Field<E>, d: State<E>, from: nat, y: nat)
    requires y in Above(d, from) && y == Min(Above(d, from)) && Ready(d, y)
    ensures var k := Min(d.missing[y]);
            Scan(f, d, from) == Scan(f, Add(f, Take(d, y, k), Create(f, d.repairs[k])), y + 1)
  {
    hide Create, Take, Add;
    ScanUnfolds(f, d, from, y, Min(d.missing[y]));
  }

  lemma {:induction false} DecodeLost<E(!new)>(f: Field<E>, d: State<E>, y: nat, s: nat) returns (added: State<E>)
    requires Lost(d, s) && Ready(d, y)
    ensures added == Add(f, Take(d, y, Min(d.missing[y])), Create(f, d.repairs[Min(d.missing[y])]))
    ensures Lost(added, s) && |added.missing.Keys| < |d.missing.Keys| && d.firstMissing <= added.firstMissing
    decreases |d.missing.Keys|, 0, 0
  {
    var k := Min(d.missing[y]);
    var taken := Take(d, y, k);
    var src := Create(f, d.repairs[k]);
    DecodedIsOther(f, d, y, s);
    TakeLost(d, y, k, s);
    SubsetSize(taken.missing.Keys, d.missing.Keys);
    hide Lost, Create, Add, Scan;
    AddLost(f, taken, src, s);
    added := Add(f, taken, src);
    SubsetSize(added.missing.Keys, taken.missing.Keys);
  }

  lemma {:induction false} AddLost<E(!new)>(f: Field<E>, d: State<E>, src: Source<E>, s: nat)
    requires Lost(d, s) && Harmless(d, src, s)
    ensures Lost(Add(f, d, src), s) && d.firstMissing <= Add(f, d, src).firstMissing
    decreases |d.missing.Keys|, 2, 0
  {
    hide Lost, Scan, Unlink, Announce;
    var a := Announce(d, src);
    var u := Unlink(f, a, src);
    AnnounceLost(d, src, s);
    AnnounceLogs(d, src);
    UnlinkLost(f, a, src, s);
    SubsetSize(u.missing.Keys, d.missing.Keys);
    ScanLost(f, u, 0, s);
    StoreLost(Scan(f, u, 0), src, s);
  }

  // ----- full decoding and outdating

  lemma RebuiltAreMissing<E(!new)>(f: Field<E>, d: State<E>, l: Matrix<E>)
    requires IsSquare(l, |d.missing.Keys|) && |d.missing.Keys| == |d.repairs.Keys|
    ensures var srcs := RebuiltAll(f, l, RepairList(d), Sorted(d.missing.Keys));
            forall k | 0 <= k < |srcs| :: srcs[k].id in d.missing
  {
    hide RebuiltAll, RepairList, Sorted;
    var ms := Sorted(d.missing.Keys);
    RebuiltIds(f, l, RepairList(d), ms);
    forall k | 0 <= k < |ms|
      ensures ms[k] in d.missing
    {
      assert ms[k] in ms;
    }
  }

  lemma FullStepLost<E(!new)>(f: Field<E>, d: State<E>, d': State<E>, s: nat)
    requires Lost(d, s) && FullStep(f, d, d')
    ensures Lost(d', s)
  {
    hide Coefficients, Singular, Solved, Lost, GiveUp;
    if |d.repairs.Keys| == 0 || |d.missing.Keys| == 0 || |d.missing.Keys| > |d.repairs.Keys| {
    } else if Singular(f, Coefficients(f, d)) {
      GiveUpLost(d, s);
    } else {
      var l: Matrix<E> :| Solved(f, d, d', l);
      SolveLost(f, d, d', l, s);
    }
  }

  lemma SolveLost<E(!new)>(f: Field<E>, d: State<E>, d': State<E>, l: Matrix<E>, s: nat)
    requires Lost(d, s) && Solved(f, d, d', l)
    ensures Lost(d', s)
  {
    assert s !in d.missing;
    hide Coefficients, LeftInverse, RebuiltAll, DeliverAll, RepairList, Sorted, Lost;
    var srcs := RebuiltAll(f, l, RepairList(d), Sorted(d.missing.Keys));
    RebuiltAreMissing(f, d, l);
    DeliverAllLost(d, srcs, s);
    SolvedLost(DeliverAll(d, srcs), d', s);
  }

  lemma GiveUpLost<E>(d: State<E>, s: nat)
    requires Lost(d, s) && |d.repairs.Keys| > 0
    ensures Lost(GiveUp(d), s)
  {
    hide InLog;
  }

  lemma SolvedLost<E>(d: State<E>, t: State<E>, s: nat)
    requires Lost(d, s) && t == d.(repairs := map[], missing := map[], decoded := t.decoded)
    ensures Lost(t, s)
  {
  }

  lemma HandOverLost<E>(d: State<E>, id: nat, s: nat)
    requires Lost(d, s)
    ensures Lost(HandOver(DropRepairs(d, id), id), s) && id <= HandOver(DropRepairs(d, id), id).firstMissing
  {
    var h := HandOver(DropRepairs(d, id), id);
    if InLog(h.log, s) {
      HandOverLogsQueued(d, id, s);
    }
    hide InLog;
  }

  lemma EraseLost<E>(d: State<E>, id: nat, s: nat)
    requires Lost(d, s) && id <= d.firstMissing
    ensures Lost(EraseBelow(d, id), s)
  {
    hide InLog;
  }

  lemma DropOutdatedLost<E>(d: State<E>, id: nat, s: nat)
    requires Lost(d, s)
    ensures Lost(DropOutdated(d, id), s)
  {
    var h := HandOver(DropRepairs(d, id), id);
    HandOverLost(d, id, s);
    assert d.inOrder && h.inOrder;
    hide Lost, HandOver, Flush, EraseBelow, DropRepairs;
    FlushLost(h, s);
    FlushLogs(h);
    EraseLost(Flush(h), id, s);
  }

  // ----- any packet

  /** A repair that lists the source is dropped, or arrives while the source is stored. */
  ghost predicate NotAskedFor<E>(d: State<E>, p: Packet<E>, s: nat) {
    p.RepairPacket? && p.repair.ids != {} ==>
      var r := p.repair;
      s in r.ids ==> IsOld(d, Max(r.ids)) || r.id in d.repairs || s in DropOutdated(d, Min(r.ids)).sources
  }

  lemma LinkLost<E>(d: State<E>, r: Repair<E>, s: nat)
    requires Lost(d, s) && s !in r.ids
    ensures Lost(Link(d, r), s)
  {
  }

  lemma UsefulLost<E(!new)>(f: Field<E>, c: State<E>, r: Repair<E>, d': State<E>, s: nat)
    requires Lost(c, s) && (s in r.ids ==> s in c.sources) && UsefulStep(f, c, r, d')
    ensures Lost(d', s)
  {
    var t := StripKnown(f, r, c.sources, r.ids * c.sources.Keys);
    StripKnownIds(f, r, c.sources, r.ids * c.sources.Keys);
    hide Lost, StripKnown, FullStep, Add, Link, Take;
    LinkLost(c, t, s);
    if |t.ids| == 1 {
      TakeLost(Link(c, t), Min(t.ids), r.id, s);
      AddLost(f, Take(Link(c, t), Min(t.ids), r.id), Create(f, t), s);
    } else {
      FullStepLost(f, Link(c, t), d', s);
    }
  }

  /** One more packet, of any kind and content. */
  lemma ReceivesLost<E(!new)>(f: Field<E>, d: State<E>, p: Packet<E>, d': State<E>, s: nat)
    requires Lost(d, s) && Receives(f, d, p, d') && NotAskedFor(d, p, s)
    ensures Lost(d', s)
  {
    match p
    case SourcePacket(src) =>
      SourceLost(f, d, src, d', s);
    case RepairPacket(r) =>
      RepairLost(f, d, r, d', s);
  }

  lemma SourceLost<E(!new)>(f: Field<E>, d: State<E>, src: Source<E>, d': State<E>, s: nat)
    requires Lost(d, s) && SourceStep(f, d, src, d')
    ensures Lost(d', s)
  {
    if !IsOld(d, src.id) && src.id !in d.sources {
      assert Harmless(d, src, s);
      hide Lost, FullStep, Add;
      AddLost(f, d, src, s);
      FullStepLost(f, Add(f, d, src), d', s);
    }
  }

  lemma RepairLost<E(!new)>(f: Field<E>, d: State<E>, r: Repair<E>, d': State<E>, s: nat)
    requires Lost(d, s) && r.ids != {} && RepairStep(f, d, r, d') && NotAskedFor(d, RepairPacket(r), s)
    ensures Lost(d', s)
  {
    hide DropOutdated, UsefulStep, InLog, Stuck;
    if !IsOld(d, Max(r.ids)) && r.id !in d.repairs {
      var c := DropOutdated(d, Min(r.ids));
      DropOutdatedLost(d, Min(r.ids), s);
      if !(r.ids <= c.sources.Keys) {
        UsefulLost(f, c, r, d', s);
      } else {
        CountsOnly(c, d', s);
      }
    }
  }

  lemma CountsOnly<E>(d: State<E>, t: State<E>, s: nat)
    requires Lost(d, s) && t == d.(useless := t.useless)
    ensures Lost(t, s)
  {
  }

  /** The decoder processes packets one after the other, from any state; in each its assertions hold and the iterators
      that it saves stay valid. */
  ghost predicate Continues<E(!new)>(f: Field<E>, ds: seq<State<E>>, ps: seq<Packet<E>>) {
    |ds| == |ps| + 1 && forall i | 0 <= i < |ps| :: Takes(f, ds[i], ps[i], ds[i + 1])
  }

  ghost predicate NeverAsked<E>(ds: seq<State<E>>, ps: seq<Packet<E>>, s: nat) {
    |ps| < |ds| && forall j | 0 <= j < |ps| :: NotAskedFor(ds[j], ps[j], s)
  }

  /** A lost source is never handed over, whatever arrives in whatever order, true or not, as long as what the code does
      with it is defined, and provided that no repair that lists it is processed while it is not stored. */
  lemma {:induction false} StaysLost<E(!new)>(f: Field<E>, ds: seq<State<E>>, ps: seq<Packet<E>>, s: nat, i: nat)
    requires Continues(f, ds, ps) && Lost(ds[0], s) && i < |ds| && NeverAsked(ds, ps, s)
    ensures Lost(ds[i], s) && !InLog(ds[i].log, s)
  {
    hide Receives, Defined, NotAskedFor;
    if i > 0 {
      StaysLost(f, ds, ps, s, i - 1);
      assert Takes(f, ds[i - 1], ps[i - 1], ds[i - 1 + 1]);
      assert NotAskedFor(ds[i - 1], ps[i - 1], s);
      ReceivesLost(f, ds[i - 1], ps[i - 1], ds[i], s);
    }
  }

  /** A repair that does not start below what is outdated never asks for a source that has been erased: while repairs
      keep to that, the source stays lost without any other condition. */
  lemma NotBelowNotAsked<E>(d: State<E>, p: Packet<E>, s: nat)
    requires s in d.sources || s < Low(d)
    requires p.RepairPacket? && p.repair.ids != {} ==> Low(d) <= Min(p.repair.ids)
    ensures NotAskedFor(d, p, s)
  {
  }

  // ----- how it gets lost, and how it may come back

  /** A source that is passed over is lost. */
  lemma PassedOverIsLost<E(!new)>(f: Field<E>, truth: Truth<E>, d: State<E>, src: Source<E>)
    requires f.Laws() && TruthOk(f, truth) && Good(f, truth, d, {}) && Complete(d) && PassedOver(f, d, src)
    requires src.id in truth && truth[src.id] == src.data
    requires src.id !in d.sources && Low(d) <= src.id && Strippable(d, src.id)
    ensures Lost(Add(f, d, src), src.id)
  {
    var a := Add(f, d, src);
    assert d.inOrder;
    hide Good, Add, Complete, PassedOver, Strippable, Links, Delivers;
    GoodGives(f, truth, d, {});
    AddGood(f, truth, d, src, {});
    GoodGives(f, truth, a, {});
    PassedOverIsStuck(f, truth, d, src);
    AddStores(f, d, src);
    NotHanded(a, src.id);
    NotListed(a, src.id);
  }

  lemma NotHanded<E>(d: State<E>, s: nat)
    requires Delivers(d, {}) && d.inOrder && d.firstMissing == s
    ensures !InLog(d.log, s)
  {
  }

  lemma NotListed<E>(d: State<E>, s: nat)
    requires Links(d) && s !in d.missing
    ensures forall k | k in d.repairs :: s !in d.repairs[k].ids
  {
  }

  lemma {:induction false} FlushKeepsOlder<E>(d: State<E>, s: nat)
    requires s < d.firstMissing
    ensures s in Flush(d).ordered <==> s in d.ordered
    decreases |d.ordered|
  {
    var m := d.firstMissing;
    if m in d.ordered && m in d.sources {
      var next := d.(log := d.log + [Source(m, d.sources[m])], ordered := d.ordered - {m}, firstMissing := m + 1);
      FlushKeepsOlder(next, s);
    }
  }

  lemma DeliverQueues<E>(d: State<E>, src: Source<E>, s: nat)
    requires d.inOrder && s < d.firstMissing
    ensures s in Deliver(d, src).ordered <==> s in d.ordered || src.id == s
    ensures s < Deliver(d, src).firstMissing
  {
    if src.id == d.firstMissing {
      var t := d.(sources := d.sources[src.id := src.data], log := d.log + [src], firstMissing := d.firstMissing + 1);
      FlushKeepsOlder(t, s);
      FlushLogs(t);
    }
  }

  ghost predicate Among<E>(srcs: seq<Source<E>>, s: nat) {
    exists k :: 0 <= k < |srcs| && srcs[k].id == s
  }

  lemma AmongLast<E>(srcs: seq<Source<E>>, s: nat)
    requires srcs != []
    ensures Among(srcs, s) <==> Among(srcs[..|srcs| - 1], s) || srcs[|srcs| - 1].id == s
  {
    var n := |srcs| - 1;
    if k :| 0 <= k < |srcs| && srcs[k].id == s {
      assert k < n ==> srcs[..n][k].id == s;
    }
    if k :| 0 <= k < n && srcs[..n][k].id == s {
      assert srcs[k].id == s;
    }
  }

  lemma {:induction false} DeliverAllQueues<E>(d: State<E>, srcs: seq<Source<E>>, s: nat)
    requires d.inOrder && s < d.firstMissing
    ensures s in DeliverAll(d, srcs).ordered <==> s in d.ordered || Among(srcs, s)
    ensures s < DeliverAll(d, srcs).firstMissing
    decreases |srcs|
  {
    hide Deliver, Among;
    if srcs != [] {
      var n := |srcs| - 1;
      DeliverAllQueues(d, srcs[..n], s);
      DeliverQueues(DeliverAll(d, srcs[..n]), srcs[n], s);
      AmongLast(srcs, s);
    } else {
      NoneAmong<E>(s);
    }
  }

  lemma NoneAmong<E>(s: nat)
    ensures !Among<E>([], s)
  {
  }

  lemma RebuiltIds<E(!new)>(f: Field<E>, l: Matrix<E>, rs: seq<Repair<E>>, ms: seq<nat>)
    requires |l| == |ms| && forall k | 0 <= k < |l| :: |l[k]| == |rs|
    ensures var srcs := RebuiltAll(f, l, rs, ms); |srcs| == |ms| && forall k | 0 <= k < |ms| :: srcs[k].id == ms[k]
  {
  }

  lemma AmongIds<E>(srcs: seq<Source<E>>, ms: seq<nat>, s: nat)
    requires |srcs| == |ms| && forall k | 0 <= k < |ms| :: srcs[k].id == ms[k]
    ensures Among(srcs, s) <==> s in ms
  {
    if s in ms {
      var k :| 0 <= k < |ms| && ms[k] == s;
      assert srcs[k].id == s;
    }
  }

  lemma EveryMissingIsRebuilt<E(!new)>(f: Field<E>, d: State<E>, l: Matrix<E>, s: nat)
    requires IsSquare(l, |d.missing.Keys|) && |d.missing.Keys| == |d.repairs.Keys|
    ensures Among(RebuiltAll(f, l, RepairList(d), Sorted(d.missing.Keys)), s) <==> s in d.missing
  {
    hide Among, RebuiltAll, RepairList, Sorted;
    var rs, ms := RepairList(d), Sorted(d.missing.Keys);
    RebuiltIds(f, l, rs, ms);
    AmongIds(RebuiltAll(f, l, rs, ms), ms, s);
    assert s in ms <==> s in d.missing.Keys;
  }

  /** Full decoding queues a source older than the one that is waited for exactly when it rebuilds it. */
  lemma QueuedExactly<E(!new)>(f: Field<E>, d: State<E>, d': State<E>, l: Matrix<E>, s: nat)
    requires Solved(f, d, d', l) && d.inOrder && s < d.firstMissing && s !in d.ordered
    ensures s in d'.ordered <==> s in d.missing
  {
    hide RebuiltAll, DeliverAll, RepairList, Sorted, LeftInverse, Among, Coefficients;
    DeliverAllQueues(d, RebuiltAll(f, l, RepairList(d), Sorted(d.missing.Keys)), s);
    EveryMissingIsRebuilt(f, d, l, s);
  }

  /** What is queued is handed over when it becomes outdated, however late. */
  lemma QueuedIsHandedOver<E>(d: State<E>, id: nat, s: nat)
    requires d.inOrder && s in d.ordered && s < id
    ensures InLog(DropOutdated(d, id).log, s)
  {
    var p := DropRepairs(d, id);
    var h := HandOver(p, id);
    var due := set x | x in p.ordered && x < id;
    DeliveriesLogged(due, p.sources, s);
    InLogGrows(p.log, Deliveries(Sorted(due), p.sources), s);
    FlushLogs(h);
    PrefixInLog(h.log, Flush(h).log, s);
  }
}
