/** Completeness of delivery when a source makes others decodable. The callback is skipped for the new source
    itself when the ones decoded on the way advance the first missing source to exactly its identifier: it is
    then neither handed over nor queued. This says when. */
module NestedDecoding {
  import opened GaloisField
  import opened Ids
  import opened Symbols
  import opened DecoderModel
  import opened Peeling
  import opened Delivery
  import opened DecoderInvariant
  import opened InOrderDelivery

  /** What is ready is not below `bound`. */
  ghost predicate ReadyFrom<E>(d: State<E>, bound: nat) {
    forall y | y in ReadySet(d) :: bound <= y
  }

  // ----- the log only grows

  ghost predicate Logged<E>(d: State<E>, d': State<E>) {
    d.log <= d'.log
  }

  lemma PrefixInLog<E>(log: seq<Source<E>>, log': seq<Source<E>>, s: nat)
    requires log <= log' && InLog(log, s)
    ensures InLog(log', s)
  {
    var i :| 0 <= i < |log| && log[i].id == s;
    assert log'[i].id == s;
  }

  lemma {:induction false} FlushLogs<E>(d: State<E>)
    ensures Logged(d, Flush(d)) && d.firstMissing <= Flush(d).firstMissing
    decreases |d.ordered|
  {
    var s := d.firstMissing;
    if s in d.ordered && s in d.sources {
      FlushLogs(d.(log := d.log + [Source(s, d.sources[s])], ordered := d.ordered - {s}, firstMissing := s + 1));
    }
  }

  lemma AnnounceLogs<E>(d: State<E>, src: Source<E>)
    ensures Logged(d, Announce(d, src)) && d.firstMissing <= Announce(d, src).firstMissing
    ensures !d.inOrder || src.id == d.firstMissing ==> InLog(Announce(d, src).log, src.id)
    ensures d.inOrder && src.id == d.firstMissing ==> src.id < Announce(d, src).firstMissing
    ensures d.inOrder && src.id != d.firstMissing ==> Announce(d, src) == d
  {
    if !d.inOrder || src.id == d.firstMissing {
      var t := d.(log := d.log + [src], firstMissing := d.firstMissing + 1);
      FlushLogs(t);
      assert t.log[|d.log|].id == src.id;
      PrefixInLog(t.log, Flush(t).log, src.id);
    }
  }

  // ----- the scan, source by source

  lemma {:induction false} ScanReaches<E(!new)>(f: Field<E>, d: State<E>, from: nat, y: nat)
    requires y in ReadySet(d) && from <= y && ReadyFrom(d, y)
    ensures Scan(f, d, from) == Scan(f, d, y) && y in Above(d, y) && y == Min(Above(d, y))
    decreases |Above(d, from)|
  {
    hide Scan, Ready;
    assert y in Above(d, from) && y in Above(d, y);
    var m := Min(Above(d, from));
    if m < y {
      assert m !in ReadySet(d);
      ScanSkips(f, d, from, m);
      ScanReaches(f, d, m + 1, y);
    } else {
      SameAbove(d, from, y);
      SameAboveScan(f, d, from, y);
    }
  }

  lemma SameAbove<E>(d: State<E>, from: nat, y: nat)
    requires from <= y && Above(d, from) != {} && y == Min(Above(d, from))
    ensures Above(d, y) == Above(d, from)
  {
  }

  lemma SameAboveScan<E(!new)>(f: Field<E>, d: State<E>, from: nat, y: nat)
    requires Above(d, from) == Above(d, y) && from <= y
    ensures Scan(f, d, from) == Scan(f, d, y)
  {
  }

  /** The first thing the scan does, if there is something to do: it decodes the least ready source, and the
      scan inside leaves nothing for the rest of the scan outside. */
  lemma ScanFirst<E(!new)>(f: Field<E>, d: State<E>, y: nat) returns (t: State<E>, src: Source<E>)
    requires Links(d) && y in ReadySet(d) && ReadyFrom(d, y)
    ensures src.id == y && y !in d.sources && t == Announce(Take(d, y, Min(d.missing[y])), src)
    ensures Scan(f, d, 0) == Store(Scan(f, t, 0), src)
    ensures Links(t) && ReadySet(t) == ReadySet(d) - {y} && |ReadySet(t)| < |ReadySet(d)|
    ensures src == Create(f, d.repairs[Min(d.missing[y])])
  {
    var k := ReadyHasOneRepair(d, y);
    src := Create(f, d.repairs[k]);
    var taken := Take(d, y, k);
    t := Announce(taken, src);
    hide Scan, Ready, Create, Announce, Complete, Links, UsedSet, ReadySources;
    ReadyAfterTake(f, d, y, k, taken);
    TakeKeepsLinks(d, y, k);
    SameLinks(taken, t);
    SameLinksSameReady(f, taken, t);
    ScanReaches(f, d, 0, y);
    ScanUnfolds(f, d, y, y, k);
    ScanPeels(f, t);
    NothingLeft(f, t, Store(Scan(f, t, 0), src), y + 1);
  }

  lemma NothingLeft<E(!new)>(f: Field<E>, d: State<E>, d': State<E>, from: nat)
    requires d'.missing == d.missing - ReadySet(d) && d'.repairs == d.repairs - UsedSet(d)
    ensures Scan(f, d', from) == d'
  {
    PeeledLeavesNothing(f, d, d');
    ScanIdle(f, d', from);
  }

  lemma LeastReady<E>(d: State<E>) returns (y: nat)
    requires ReadySet(d) != {}
    ensures y in ReadySet(d) && ReadyFrom(d, y) && y in d.missing && d.missing[y] != {}
  {
    y := Min(ReadySet(d));
  }

  // ----- the log only grows

  lemma {:induction false} ScanLogs<E(!new)>(f: Field<E>, d: State<E>)
    requires Links(d)
    ensures Logged(d, Scan(f, d, 0)) && d.firstMissing <= Scan(f, d, 0).firstMissing
    decreases |ReadySet(d)|
  {
    hide Scan, Links, ReadySet, Announce;
    if ReadySet(d) == {} {
      ScanIdle(f, d, 0);
    } else {
      var y := LeastReady(d);
      var t, src := ScanFirst(f, d, y);
      AnnounceLogs(Take(d, y, Min(d.missing[y])), src);
      ScanLogs(f, t);
    }
  }

  /** `add_source_recursive` takes nothing back: what was handed over stays so, and the first missing source
      never moves back. */
  lemma AddLogs<E(!new)>(f: Field<E>, d: State<E>, src: Source<E>)
    requires Links(d) && Strippable(d, src.id)
    ensures Logged(d, Add(f, d, src)) && d.firstMissing <= Add(f, d, src).firstMissing
  {
    hide Scan, Links, Announce, Strippable;
    AnnounceLogs(d, src);
    AnnouncedLinks(f, d, src);
    ScanLogs(f, Unlink(f, Announce(d, src), src));
  }

  lemma AnnouncedLinks<E(!new)>(f: Field<E>, d: State<E>, src: Source<E>)
    requires Links(d) && Strippable(d, src.id)
    ensures Links(Unlink(f, Announce(d, src), src))
    ensures ReadySet(Unlink(f, Announce(d, src), src)) == ReadySet(Unlink(f, d, src))
  {
    var a := Announce(d, src);
    SameLinks(d, a);
    UnlinkKeepsLinks(f, a, src);
    SameLinksSameReady(f, Unlink(f, d, src), Unlink(f, a, src));
  }

  // ----- one source announced, then stored

  lemma AnnounceComplete<E>(d: State<E>, src: Source<E>)
    requires d.inOrder && Complete(d) && src.id !in d.sources
    ensures Complete(Announce(d, src))
  {
    if src.id == d.firstMissing {
      var t := d.(log := d.log + [src], firstMissing := d.firstMissing + 1);
      HandedOneMore(d, t, src);
      FlushComplete(t);
    }
  }

  /** Storing a source that was set aside keeps delivery complete, unless it has become the first missing
      one. */
  lemma StoreComplete<E>(d: State<E>, src: Source<E>)
    requires d.inOrder && Complete(d) && src.id !in d.sources
    requires src.id < d.firstMissing ==> InLog(d.log, src.id)
    ensures Complete(Store(d, src)) <==> src.id != d.firstMissing
  {
  }

  lemma SameDelivery<E>(d: State<E>, t: State<E>)
    requires t == d.(repairs := t.repairs, missing := t.missing, decoded := t.decoded)
    ensures Complete(t) == Complete(d)
  {
  }

  // ----- a source that is not stored stops the flush

  lemma {:induction false} FlushStops<E>(d: State<E>, z: nat)
    requires z !in d.sources && d.firstMissing <= z
    ensures Flush(d).firstMissing <= z
    decreases |d.ordered|
  {
    var s := d.firstMissing;
    if s in d.ordered && s in d.sources {
      FlushStops(d.(log := d.log + [Source(s, d.sources[s])], ordered := d.ordered - {s}, firstMissing := s + 1), z);
    }
  }

  lemma AnnounceStops<E>(d: State<E>, src: Source<E>, z: nat)
    requires z !in d.sources && d.firstMissing <= z && z != src.id
    ensures Announce(d, src).firstMissing <= z
  {
    if d.inOrder && src.id == d.firstMissing {
      FlushStops(d.(log := d.log + [src], firstMissing := d.firstMissing + 1), z);
    }
  }

  /** What is ready stays at or above the first missing source when the least of it is announced. */
  lemma StillNewer<E>(d: State<E>, y: nat, taken: State<E>, t: State<E>, src: Source<E>)
    requires Links(d) && ReadyFrom(d, d.firstMissing) && ReadyFrom(d, y) && ReadySet(t) == ReadySet(d) - {y}
    requires taken.sources == d.sources && taken.firstMissing == d.firstMissing && taken.inOrder && src.id == y
    requires t == Announce(taken, src)
    ensures ReadyFrom(t, t.firstMissing)
    ensures d.firstMissing < y ==> ReadyFrom(t, t.firstMissing + 1)
  {
    forall z | z in ReadySet(t)
      ensures t.firstMissing <= z
      ensures d.firstMissing < y ==> t.firstMissing + 1 <= z
    {
      assert z in ReadySet(d) && z in d.missing;
      AnnounceStops(taken, src, z);
      AnnounceLogs(taken, src);
    }
  }

  lemma NotPeeled<E(!new)>(f: Field<E>, t: State<E>, y: nat)
    requires Links(t) && y !in t.sources && y !in ReadySet(t)
    ensures y !in Scan(f, t, 0).sources && Scan(f, t, 0).inOrder == t.inOrder
  {
    ScanPeels(f, t);
  }

  // ----- the scan, in order

  /** Nothing happens to delivery while everything ready is newer than the first missing source. */
  lemma {:induction false} ScanIsQuiet<E(!new)>(f: Field<E>, d: State<E>)
    requires Links(d) && d.inOrder && ReadyFrom(d, d.firstMissing + 1)
    ensures Scan(f, d, 0).firstMissing == d.firstMissing
    decreases |ReadySet(d)|
  {
    hide Scan, Links, ReadySet, Announce;
    if ReadySet(d) == {} {
      ScanIdle(f, d, 0);
    } else {
      var y := LeastReady(d);
      var t, src := ScanFirst(f, d, y);
      AnnounceLogs(Take(d, y, Min(d.missing[y])), src);
      ScanIsQuiet(f, t);
    }
  }

  /** Every source that the scan decodes is delivered or queued: the least ready one comes first, so none is
      passed over while it is being worked on. */
  lemma {:induction false} ScanComplete<E(!new)>(f: Field<E>, d: State<E>)
    requires Links(d) && d.inOrder && Complete(d) && ReadyFrom(d, d.firstMissing)
    ensures Complete(Scan(f, d, 0))
    decreases |ReadySet(d)|
  {
    hide Scan, Links, ReadySet, Announce, Complete;
    if ReadySet(d) == {} {
      ScanIdle(f, d, 0);
    } else {
      var y := LeastReady(d);
      var t, src := ScanFirst(f, d, y);
      var taken := Take(d, y, Min(d.missing[y]));
      AnnounceLogs(taken, src);
      SameDelivery(d, taken);
      AnnounceComplete(taken, src);
      StillNewer(d, y, taken, t, src);
      ScanComplete(f, t);
      ScanLogs(f, t);
      ScanPeels(f, t);
      if y == d.firstMissing {
        PrefixInLog(t.log, Scan(f, t, 0).log, y);
      } else {
        ScanIsQuiet(f, t);
      }
      NotPeeled(f, t, y);
      StoreComplete(Scan(f, t, 0), src);
    }
  }

  // ----- nothing is skipped on the way

  lemma {:induction false} FlushCovers<E>(d: State<E>)
    ensures forall m: nat | d.firstMissing <= m < Flush(d).firstMissing :: m in d.sources
    decreases |d.ordered|
  {
    var s := d.firstMissing;
    if s in d.ordered && s in d.sources {
      FlushCovers(d.(log := d.log + [Source(s, d.sources[s])], ordered := d.ordered - {s}, firstMissing := s + 1));
    }
  }

  lemma AnnounceCovers<E>(d: State<E>, src: Source<E>)
    ensures forall m: nat | d.firstMissing <= m < Announce(d, src).firstMissing :: m in d.sources || m == src.id
  {
    if d.inOrder && src.id == d.firstMissing {
      FlushCovers(d.(log := d.log + [src], firstMissing := d.firstMissing + 1));
    }
  }

  /** The first missing source only advances over stored ones. */
  lemma {:induction false} ScanCovers<E(!new)>(f: Field<E>, d: State<E>)
    requires Links(d)
    ensures forall m: nat | d.firstMissing <= m < Scan(f, d, 0).firstMissing :: m in Scan(f, d, 0).sources
    decreases |ReadySet(d)|
  {
    hide Scan, Links, ReadySet, Announce, Ready;
    if ReadySet(d) == {} {
      ScanIdle(f, d, 0);
    } else {
      var y := LeastReady(d);
      var t, src := ScanFirst(f, d, y);
      AnnounceCovers(Take(d, y, Min(d.missing[y])), src);
      ScanCovers(f, t);
      ScanPeels(f, t);
    }
  }

  /** Without an order, everything decoded is handed over. */
  lemma {:induction false} ScanLogsAll<E(!new)>(f: Field<E>, d: State<E>)
    requires Links(d) && !d.inOrder && Complete(d)
    ensures Complete(Scan(f, d, 0))
    decreases |ReadySet(d)|
  {
    hide Scan, Links, ReadySet, Announce, InLog;
    if ReadySet(d) == {} {
      ScanIdle(f, d, 0);
    } else {
      var y := LeastReady(d);
      var t, src := ScanFirst(f, d, y);
      var taken := Take(d, y, Min(d.missing[y]));
      AnnounceLogs(taken, src);
      SameDelivery(d, taken);
      AnnounceAll(taken, src);
      ScanLogsAll(f, t);
      ScanLogs(f, t);
      PrefixInLog(t.log, Scan(f, t, 0).log, y);
      StoreAll(Scan(f, t, 0), src);
    }
  }

  lemma AnnounceAll<E>(d: State<E>, src: Source<E>)
    requires !d.inOrder && Complete(d)
    ensures Complete(Announce(d, src))
  {
    forall s | s in d.sources
      ensures InLog(Announce(d, src).log, s)
    {
      InLogGrows(d.log, [src], s);
    }
  }

  lemma StoreAll<E>(d: State<E>, src: Source<E>)
    requires !d.inOrder && Complete(d) && InLog(d.log, src.id)
    ensures Complete(Store(d, src))
  {
  }

  // ----- the source that starts it all

  /** The new source is passed over: it is not the first missing one, but everything between that one and it
      is stored or becomes decodable through it. */
  ghost predicate PassedOver<E(!new)>(f: Field<E>, d: State<E>, src: Source<E>) {
    && d.inOrder
    && d.firstMissing < src.id
    && forall m: nat | d.firstMissing <= m < src.id :: m in d.sources || m in ReadySet(Unlink(f, d, src))
  }

  lemma Meets(from: nat, to: nat, x: nat, stored: set<nat>)
    requires from <= to && from <= x && to !in stored && x !in stored
    requires forall m: nat | from <= m < to :: m in stored
    ensures to <= x
    ensures to == x <==> forall m: nat | from <= m < x :: m in stored
  {
  }

  /** Where the first missing source stands once everything decodable has been decoded. */
  lemma MeetsExactlyWhen<E(!new)>(f: Field<E>, u: State<E>, x: nat)
    requires Links(u) && u.inOrder && Complete(u) && ReadyFrom(u, u.firstMissing)
    requires x !in u.sources && x !in u.missing && u.firstMissing <= x
    ensures Scan(f, u, 0).firstMissing <= x
    ensures Scan(f, u, 0).firstMissing == x
       <==> forall m: nat | u.firstMissing <= m < x :: m in u.sources || m in ReadySet(u)
  {
    hide Scan, Ready, Links;
    var t := Scan(f, u, 0);
    ScanComplete(f, u);
    ScanLogs(f, u);
    ScanCovers(f, u);
    NotPeeled(f, u, x);
    StoredAfterScan(f, u);
    assert t.firstMissing !in t.sources.Keys && x !in t.sources.Keys;
    Meets(u.firstMissing, t.firstMissing, x, t.sources.Keys);
    assert forall m :: m in t.sources.Keys <==> m in u.sources || m in ReadySet(u);
  }

  lemma StoredAfterScan<E(!new)>(f: Field<E>, u: State<E>)
    requires Links(u)
    ensures Scan(f, u, 0).sources.Keys == u.sources.Keys + ReadySet(u)
  {
    ScanPeels(f, u);
  }

  /** Delivery stays complete when a new source arrives, exactly unless that source is passed over. */
  lemma CompleteUnlessPassedOver<E(!new)>(f: Field<E>, truth: Truth<E>, d: State<E>, src: Source<E>)
    requires Good(f, truth, d, {}) && Complete(d)
    requires src.id !in d.sources && Low(d) <= src.id && Strippable(d, src.id)
    ensures Complete(Add(f, d, src)) <==> !PassedOver(f, d, src)
  {
    GoodGives(f, truth, d, {});
    hide Good, Scan, Links, Announce, Strippable, Ready, InLog, Unlink, Delivers;
    var a := Announce(d, src);
    var u := Unlink(f, a, src);
    AnnouncedLinks(f, d, src);
    AnnounceLogs(d, src);
    UnlinkSame(f, a, src);
    if d.inOrder {
      CompleteInOrder(f, truth, d, src, a, u);
    } else {
      AnnounceAll(d, src);
      SameDelivery(a, u);
      ScanLogsAll(f, u);
      ScanLogs(f, u);
      PrefixInLog(u.log, Scan(f, u, 0).log, src.id);
      StoreAll(Scan(f, u, 0), src);
    }
  }

  lemma UnlinkSame<E(!new)>(f: Field<E>, a: State<E>, src: Source<E>)
    ensures var u := Unlink(f, a, src);
            u == a.(repairs := u.repairs, missing := u.missing) && src.id !in u.missing
            && u.missing.Keys <= a.missing.Keys
  {
  }

  lemma CompleteInOrder<E(!new)>(f: Field<E>, truth: Truth<E>, d: State<E>, src: Source<E>, a: State<E>, u: State<E>)
    requires Links(d) && Young(d) && Delivers(d, {}) && d.inOrder && Complete(d)
    requires src.id !in d.sources && Low(d) <= src.id
    requires a == Announce(d, src) && u == Unlink(f, a, src) && Links(u)
    requires ReadySet(u) == ReadySet(Unlink(f, d, src))
    ensures Complete(Add(f, d, src)) <==> !PassedOver(f, d, src)
  {
    hide Scan, Links, Announce, Ready, InLog, Unlink, Delivers, ReadySet, Complete, Young, PassedOver;
    var t := Scan(f, u, 0);
    UnlinkSame(f, a, src);
    AnnounceLogs(d, src);
    AnnounceComplete(d, src);
    SameDelivery(a, u);
    ReadyStaysNewer(d, src, a, u);
    ScanComplete(f, u);
    ScanLogs(f, u);
    NotReady(u, src.id);
    NotPeeled(f, u, src.id);
    if src.id == d.firstMissing {
      PrefixInLog(u.log, t.log, src.id);
      StoreComplete(t, src);
      NotPassedOver(f, d, src);
    } else {
      FirstMissingBelow(d, src.id);
      MeetsExactlyWhen(f, u, src.id);
      StoreComplete(t, src);
      PassedOverMeans(f, d, src, u);
    }
  }

  lemma NotReady<E>(u: State<E>, x: nat)
    requires x !in u.missing
    ensures x !in ReadySet(u)
  {
  }

  lemma FirstMissingBelow<E>(d: State<E>, x: nat)
    requires Delivers(d, {}) && d.inOrder && x !in d.sources && Low(d) <= x && x != d.firstMissing
    ensures d.firstMissing < x
  {
  }

  lemma NotPassedOver<E(!new)>(f: Field<E>, d: State<E>, src: Source<E>)
    requires src.id == d.firstMissing
    ensures !PassedOver(f, d, src)
  {
  }

  lemma PassedOverMeans<E(!new)>(f: Field<E>, d: State<E>, src: Source<E>, u: State<E>)
    requires d.inOrder && d.firstMissing < src.id && u.sources == d.sources && u.firstMissing == d.firstMissing
    requires ReadySet(u) == ReadySet(Unlink(f, d, src))
    ensures PassedOver(f, d, src)
       <==> forall m: nat | u.firstMissing <= m < src.id :: m in u.sources || m in ReadySet(u)
  {
  }

  lemma ReadyStaysNewer<E>(d: State<E>, src: Source<E>, a: State<E>, u: State<E>)
    requires Links(d) && Young(d) && Delivers(d, {}) && d.inOrder
    requires a == Announce(d, src) && u.missing.Keys <= a.missing.Keys && src.id !in u.missing
    requires u.firstMissing == a.firstMissing
    ensures ReadyFrom(u, u.firstMissing)
  {
    forall y | y in ReadySet(u)
      ensures u.firstMissing <= y
    {
      assert y in d.missing && y !in d.sources;
      AnnounceStops(d, src, y);
    }
  }
}
