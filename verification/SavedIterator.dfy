/** The scan of `add_source_recursive` as it is coded: the iterator to the next missing source is taken before the
    nested call, which may erase the entry it points to (`decoder.cc` 281-325). An iterator is the key of its entry,
    or `None` at the end; reading one whose key is gone has no result. This says when that happens, and that the
    scan of the model is what the code does otherwise. */
module SavedIterator {
  import opened Wrappers
  import opened GaloisField
  import opened Ids
  import opened Symbols
  import opened DecoderModel
  import opened Peeling
  import opened NestedDecoding

  function Begin<E>(d: State<E>): Option<nat> {
    if d.missing.Keys == {} then None else Some(Min(d.missing.Keys))
  }

  /** What incrementing an iterator, or erasing its entry, yields. */
  function Successor<E>(d: State<E>, y: nat): Option<nat> {
    var rest := Above(d, y + 1);
    if rest == {} then None else Some(Min(rest))
  }

  function Steps<E>(d: State<E>, cit: Option<nat>): nat {
    if cit.None? then 0 else 1 + |Above(d, cit.value)|
  }

  lemma FewerSteps<E>(d: State<E>, y: nat)
    requires y in d.missing
    ensures Steps(d, Successor(d, y)) < Steps(d, Some(y))
  {
    var next := Successor(d, y);
    if next.Some? {
      assert y in Above(d, y) && y !in Above(d, next.value);
      SubsetSize(Above(d, next.value), Above(d, y));
    }
  }

  /** The loop from iterator `cit` on, or `None` when it reads an iterator whose entry has been erased. */
  function ScanSaved<E(!new)>(f: Field<E>, d: State<E>, cit: Option<nat>): (r: Option<State<E>>)
    ensures r.Some? ==> r.value.missing.Keys <= d.missing.Keys
    decreases |d.missing.Keys|, 0, Steps(d, cit)
  {
    if cit.None? then Some(d)
    else if cit.value !in d.missing then None
    else
      var y := cit.value;
      var next := Successor(d, y);
      FewerSteps(d, y);
      if !Ready(d, y) then ScanSaved(f, d, next)
      else
        var k := Min(d.missing[y]);
        var taken := Take(d, y, k);
        SubsetSize(taken.missing.Keys, d.missing.Keys);
        var added := AddSaved(f, taken, Create(f, d.repairs[k]));
        if added.None? then None
        else
          SubsetSize(added.value.missing.Keys, taken.missing.Keys);
          ScanSaved(f, added.value, next)
  }

  /** `add_source_recursive` with this scan. */
  function AddSaved<E(!new)>(f: Field<E>, d: State<E>, src: Source<E>): (r: Option<State<E>>)
    ensures r.Some? ==> r.value.missing.Keys <= d.missing.Keys
    decreases |d.missing.Keys|, 1, 0
  {
    var unlinked := Unlink(f, Announce(d, src), src);
    SubsetSize(unlinked.missing.Keys, d.missing.Keys);
    var scanned := ScanSaved(f, unlinked, Begin(unlinked));
    if scanned.None? then None else Some(Store(scanned.value, src))
  }

  // ----- neighbours

  ghost predicate Neighbours<E>(d: State<E>, a: nat, b: nat) {
    && a in d.missing && b in d.missing && a < b
    && forall m | m in d.missing :: m <= a || b <= m
  }

  /** Two missing sources that follow each other are both decodable. */
  ghost predicate ReadyNeighbours<E>(d: State<E>) {
    exists a: nat, b: nat :: a in ReadySet(d) && b in ReadySet(d) && Neighbours(d, a, b)
  }

  lemma SuccessorIs<E>(d: State<E>, y: nat, b: nat)
    requires y in d.missing
    ensures Successor(d, y) == Some(b) <==> Neighbours(d, y, b)
  {
    if Neighbours(d, y, b) {
      assert b in Above(d, y + 1);
      MinIs(Above(d, y + 1), b);
    }
    if Successor(d, y) == Some(b) {
      var rest := Above(d, y + 1);
      forall m | m in d.missing
        ensures m <= y || b <= m
      {
        assert m > y ==> m in rest;
      }
    }
  }

  /** With the least decodable source gone, the others have the same neighbours. */
  lemma NeighboursStay<E>(d: State<E>, t: State<E>, y: nat)
    requires y in ReadySet(d) && ReadyFrom(d, y)
    requires t.missing == d.missing - {y} && ReadySet(t) == ReadySet(d) - {y}
    ensures ReadyNeighbours(d)
       <==> ReadyNeighbours(t) || (Successor(d, y).Some? && Successor(d, y).value in ReadySet(d))
  {
    hide Ready, ReadySet, Successor;
    assert y in d.missing by {
      ReadyIsMissing(d, y);
    }
    forall a: nat, b: nat | a in ReadySet(t) && b in ReadySet(t)
      ensures Neighbours(t, a, b) <==> Neighbours(d, a, b)
    {
      assert y <= a && y <= b;
      assert forall m :: m in d.missing <==> m in t.missing || m == y;
    }
    forall b: nat
      ensures Successor(d, y) == Some(b) <==> Neighbours(d, y, b)
    {
      SuccessorIs(d, y, b);
    }
  }

  lemma ReadyIsMissing<E>(d: State<E>, y: nat)
    requires y in ReadySet(d)
    ensures y in d.missing
  {
  }

  // ----- the loop where nothing is decodable

  lemma SuccessorIsMissing<E>(d: State<E>, y: nat)
    ensures var next := Successor(d, y); next.Some? ==> next.value in d.missing && y < next.value
  {
  }

  lemma {:induction false} ScanSavedIdle<E(!new)>(f: Field<E>, d: State<E>, cit: Option<nat>)
    requires ReadySet(d) == {} && (cit.Some? ==> cit.value in d.missing)
    ensures ScanSaved(f, d, cit) == Some(d)
    decreases Steps(d, cit)
  {
    hide Successor, Steps;
    if cit.Some? {
      assert !Ready(d, cit.value) by {
        assert cit.value !in ReadySet(d);
      }
      FewerSteps(d, cit.value);
      SuccessorIsMissing(d, cit.value);
      ScanSavedIdle(f, d, Successor(d, cit.value));
    }
  }

  /** The loop comes to the least decodable source. */
  lemma {:induction false} ScanSavedReaches<E(!new)>(f: Field<E>, d: State<E>, cit: nat, y: nat)
    requires y in ReadySet(d) && ReadyFrom(d, y) && cit in d.missing && cit <= y
    ensures ScanSaved(f, d, Some(cit)) == ScanSaved(f, d, Some(y))
    decreases Steps(d, Some(cit))
  {
    if cit < y {
      assert cit !in ReadySet(d);
      FewerSteps(d, cit);
      SuccessorIsMissing(d, cit);
      assert y in Above(d, cit + 1);
      hide Ready;
      ScanSavedReaches(f, d, Successor(d, cit).value, y);
    }
  }

  /** The round that decodes the least decodable source. */
  lemma ScanSavedFirst<E(!new)>(f: Field<E>, d: State<E>, y: nat, t: State<E>, src: Source<E>)
    requires y in ReadySet(d) && ReadyFrom(d, y) && d.missing[y] != {} && Min(d.missing[y]) in d.repairs
    requires d.repairs[Min(d.missing[y])].ids != {} && src == Create(f, d.repairs[Min(d.missing[y])]) && src.id == y
    requires t == Announce(Take(d, y, Min(d.missing[y])), src)
    ensures var inner := ScanSaved(f, t, Begin(t));
            ScanSaved(f, d, Begin(d))
            == if inner.None? then None else ScanSaved(f, Store(inner.value, src), Successor(d, y))
  {
    var k := Min(d.missing[y]);
    var taken := Take(d, y, k);
    ScanSavedReaches(f, d, Min(d.missing.Keys), y);
    assert Unlink(f, t, src) == t;
    SubsetSize(taken.missing.Keys, d.missing.Keys);
    assert AddSaved(f, taken, src)
        == var inner := ScanSaved(f, t, Begin(t)); if inner.None? then None else Some(Store(inner.value, src));
    hide Begin, Announce, Create;
  }

  lemma ReadyHas<E>(d: State<E>, y: nat)
    requires Links(d) && y in ReadySet(d)
    ensures y in d.missing && d.missing[y] != {} && Min(d.missing[y]) in d.repairs
    ensures d.repairs[Min(d.missing[y])].ids != {}
  {
    var k := ReadyHasOneRepair(d, y);
  }

  lemma OneLessMissing<E>(d: State<E>, y: nat, src: Source<E>)
    requires y in d.missing && d.missing[y] != {}
    ensures Announce(Take(d, y, Min(d.missing[y])), src).missing == d.missing - {y}
  {
  }

  lemma AfterInner<E(!new)>(f: Field<E>, t: State<E>, src: Source<E>)
    requires Links(t)
    ensures var added := Store(Scan(f, t, 0), src);
            ReadySet(added) == {} && added.missing.Keys == t.missing.Keys - ReadySet(t)
  {
    ScanPeels(f, t);
    PeeledLeavesNothing(f, t, Store(Scan(f, t, 0), src));
  }

  /** The coded scan reads an erased iterator exactly when two decodable sources are neighbours; otherwise it is
      the scan of the model. */
  lemma {:induction false} ScanSavedExactly<E(!new)>(f: Field<E>, d: State<E>)
    requires Links(d)
    ensures ScanSaved(f, d, Begin(d)) == if ReadyNeighbours(d) then None else Some(Scan(f, d, 0))
    decreases |ReadySet(d)|
  {
    hide ScanSaved, Scan, Links, ReadySet, Announce, Ready, Successor, ReadyNeighbours, Create, Take;
    if ReadySet(d) == {} {
      ScanSavedIdle(f, d, Begin(d));
      ScanIdle(f, d, 0);
      NoReadyNeighbours(d);
    } else {
      var y := LeastReady(d);
      ReadyHas(d, y);
      var t, src := ScanFirst(f, d, y);
      OneLessMissing(d, y, src);
      ScanSavedFirst(f, d, y, t, src);
      ScanSavedExactly(f, t);
      NeighboursStay(d, t, y);
      AfterInner(f, t, src);
      Rest(f, d, y, t, Store(Scan(f, t, 0), src));
    }
  }

  lemma NoReadyNeighbours<E>(d: State<E>)
    requires ReadySet(d) == {}
    ensures !ReadyNeighbours(d)
  {
  }

  /** What the outer loop does after the nested call: it stops, or reads the saved iterator. */
  lemma Rest<E(!new)>(f: Field<E>, d: State<E>, y: nat, t: State<E>, added: State<E>)
    requires y in d.missing && t.missing == d.missing - {y} && ReadySet(t) == ReadySet(d) - {y}
    requires ReadySet(added) == {} && added.missing.Keys == t.missing.Keys - ReadySet(t)
    ensures var next := Successor(d, y);
            ScanSaved(f, added, next)
            == if next.Some? && next.value in ReadySet(d) then None else Some(added)
  {
    hide ReadySet, Successor, Ready;
    var next := Successor(d, y);
    SuccessorIsMissing(d, y);
    if next.Some? {
      assert next.value in added.missing.Keys <==> next.value !in ReadySet(d);
    }
    if !(next.Some? && next.value in ReadySet(d)) {
      ScanSavedIdle(f, added, next);
    }
  }

  /** `add_source_recursive` as coded, for a source that no held repair encodes alone: it reads an erased iterator
      exactly when two sources that it makes decodable, or that were, are neighbours among the missing ones. */
  lemma AddSavedExactly<E(!new)>(f: Field<E>, d: State<E>, src: Source<E>)
    requires Links(d) && Strippable(d, src.id)
    ensures AddSaved(f, d, src) == if ReadyNeighbours(Unlink(f, d, src)) then None else Some(Add(f, d, src))
  {
    hide ScanSaved, Scan, Links, Strippable, ReadySet, Announce, Unlink, ReadyNeighbours;
    var u := Unlink(f, Announce(d, src), src);
    AnnouncedLinks(f, d, src);
    ScanSavedExactly(f, u);
    SameMissing(f, d, src);
    SameNeighbours(Unlink(f, d, src), u);
  }

  lemma SameMissing<E(!new)>(f: Field<E>, d: State<E>, src: Source<E>)
    ensures Unlink(f, Announce(d, src), src).missing == Unlink(f, d, src).missing
  {
  }

  lemma SameNeighbours<E>(d: State<E>, t: State<E>)
    requires t.missing == d.missing && ReadySet(t) == ReadySet(d)
    ensures ReadyNeighbours(t) <==> ReadyNeighbours(d)
  {
    hide ReadySet;
    assert forall a: nat, b: nat :: Neighbours(t, a, b) <==> Neighbours(d, a, b);
  }

  /** When it does not, the nested scans decode exactly what is decodable. */
  lemma ScanSavedPeels<E(!new)>(f: Field<E>, d: State<E>)
    requires Links(d) && !ReadyNeighbours(d)
    ensures ScanSaved(f, d, Begin(d)).Some? && Peeled(f, d, ScanSaved(f, d, Begin(d)).value)
  {
    hide *;
    ScanSavedExactly(f, d);
    ScanPeels(f, d);
  }

  /** And the recursion stores exactly the new source and those that this makes decodable, and leaves none that is. */
  lemma AddSavedEffect<E(!new)>(f: Field<E>, d: State<E>, src: Source<E>)
    requires Links(d) && Strippable(d, src.id) && !ReadyNeighbours(Unlink(f, d, src))
    ensures AddSaved(f, d, src).Some?
    ensures var u, d' := Unlink(f, d, src), AddSaved(f, d, src).value;
            && d'.missing == u.missing - ReadySet(u) && d'.repairs == u.repairs - UsedSet(u)
            && d'.sources == (d.sources + ReadySources(f, u))[src.id := src.data]
            && d'.decoded == d.decoded + |ReadySet(u)| && Untouched(d, d') && ReadySet(d') == {}
  {
    hide *;
    AddSavedExactly(f, d, src);
    AddEffect(f, d, src);
  }

  // ----- what a caller can check

  /** A new source that keeps the saved iterators valid. */
  ghost predicate SourceKeepsIterators<E(!new)>(f: Field<E>, d: State<E>, src: Source<E>) {
    IsOld(d, src.id) || src.id in d.sources || !ReadyNeighbours(Unlink(f, d, src))
  }

  /** The unknown sources of a repair, when there is only one: it is no longer missing before the scan. */
  ghost predicate LoneKeepsIterators<E>(d: State<E>, unknown: set<nat>) {
    |unknown| == 1 ==> !ReadyNeighbours(d.(missing := d.missing - unknown))
  }

  ghost predicate RepairKeepsIterators<E>(d: State<E>, r: Repair<E>)
    requires r.ids != {}
  {
    || IsOld(d, Max(r.ids))
    || r.id in d.repairs
    || var c := DropOutdated(d, Min(r.ids)); LoneKeepsIterators(c, r.ids - c.sources.Keys)
  }

  /** Nothing is decodable, so no iterator is in danger. */
  lemma NothingReadyKeeps<E(!new)>(f: Field<E>, d: State<E>, src: Source<E>)
    requires ReadySet(d) == {} && src.id !in d.missing
    ensures SourceKeepsIterators(f, d, src)
  {
    assert Unlink(f, d, src) == d;
    NoReadyNeighbours(d);
  }

  lemma NoRepairsKeep<E>(d: State<E>, unknown: set<nat>)
    requires |unknown| == 1 ==> d.repairs.Keys == {}
    ensures LoneKeepsIterators(d, unknown)
  {
    if |unknown| == 1 {
      var t := d.(missing := d.missing - unknown);
      assert forall y | y in t.missing :: !Ready(t, y);
      assert ReadySet(t) == {};
    }
  }
}
