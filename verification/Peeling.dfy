/** What `add_source_recursive` achieves, independently of the order in which it visits the missing
    sources: the new source is stored together with every missing source whose only repair encodes
    nothing else, and those repairs are used up. */
module Peeling {
  import opened GaloisField
  import opened Ids
  import opened Symbols
  import opened DecoderModel

  /** Repairs and missing sources refer to each other, and a missing source is not stored. */
  ghost predicate Links<E>(d: State<E>) {
    && (forall k | k in d.repairs :: d.repairs[k].id == k && d.repairs[k].ids != {})
    && (forall k, s | k in d.repairs && s in d.repairs[k].ids :: s in d.missing && k in d.missing[s])
    && (forall s, k | s in d.missing && k in d.missing[s] :: k in d.repairs && s in d.repairs[k].ids)
    && d.missing.Keys !! d.sources.Keys
  }

  /** No repair encodes the source and nothing else. */
  ghost predicate Strippable<E>(d: State<E>, s: nat) {
    forall k | k in d.repairs && s in d.repairs[k].ids :: d.repairs[k].ids != {s}
  }

  ghost function ReadySet<E>(d: State<E>): set<nat> {
    set y | y in d.missing && Ready(d, y)
  }

  /** The repairs from which the ready sources are rebuilt. */
  ghost function UsedSet<E>(d: State<E>): set<nat> {
    set k | k in d.repairs && UsedUp(d, k)
  }

  ghost predicate UsedUp<E>(d: State<E>, k: nat)
    requires k in d.repairs
  {
    var ids := d.repairs[k].ids;
    |ids| == 1 && Ready(d, Min(ids)) && Min(d.missing[Min(ids)]) == k
  }

  ghost function ReadySources<E(!new)>(f: Field<E>, d: State<E>): map<nat, seq<E>> {
    map y | y in ReadySet(d) :: Create(f, d.repairs[Min(d.missing[y])]).data
  }

  /** Everything ready has been decoded, and nothing else. */
  ghost predicate Peeled<E(!new)>(f: Field<E>, d: State<E>, d': State<E>) {
    && d'.missing == d.missing - ReadySet(d)
    && d'.repairs == d.repairs - UsedSet(d)
    && d'.sources == d.sources + ReadySources(f, d)
    && d'.decoded == d.decoded + |ReadySet(d)|
    && Untouched(d, d')
  }

  ghost predicate Untouched<E>(d: State<E>, d': State<E>) {
    && d'.inOrder == d.inOrder
    && d'.lastId == d.lastId
    && d'.useless == d.useless
    && d'.failed == d.failed
  }

  lemma SingletonIs<T>(s: set<T>, x: T)
    requires |s| == 1 && x in s
    ensures s == {x}
  {
    SubsetSize({x}, s);
  }

  lemma ReadyHasOneRepair<E>(d: State<E>, y: nat) returns (k: nat)
    requires Links(d) && Ready(d, y)
    ensures k == Min(d.missing[y]) && d.missing[y] == {k}
    ensures k in d.repairs && d.repairs[k].ids == {y} && Min(d.repairs[k].ids) == y
  {
    k := Min(d.missing[y]);
    SingletonIs(d.missing[y], k);
    SingletonIs(d.repairs[k].ids, y);
  }

  lemma SameLinks<E>(d: State<E>, t: State<E>)
    requires t.repairs == d.repairs && t.missing == d.missing && t.sources == d.sources
    ensures Links(t) == Links(d)
  {
  }

  lemma TakeKeepsLinks<E>(d: State<E>, y: nat, k: nat)
    requires Links(d) && y in d.missing && d.missing[y] == {k} && d.repairs[k].ids == {y}
    ensures Links(Take(d, y, k))
  {
  }

  /** The source `z` is missing in both states, and its first repair is the same. */
  ghost predicate SameAt<E>(d: State<E>, t: State<E>, z: nat) {
    && z in d.missing && z in t.missing && t.missing[z] == d.missing[z] && d.missing[z] != {}
    && (var j := Min(d.missing[z]); j in d.repairs && j in t.repairs && t.repairs[j] == d.repairs[j])
  }

  /** Decoding one ready source leaves another one as it was. */
  lemma ReadyElsewhere<E>(d: State<E>, y: nat, k: nat, t: State<E>, z: nat)
    requires Links(d) && y in d.missing && d.missing[y] == {k} && k in d.repairs && d.repairs[k].ids == {y}
    requires t.repairs == d.repairs - {k} && t.missing == d.missing - {y} && z != y
    ensures Ready(t, z) <==> Ready(d, z)
    ensures Ready(d, z) ==> SameAt(d, t, z)
  {
    if Ready(d, z) {
      var j := ReadyHasOneRepair(d, z);
    }
  }

  /** Decoding one ready source leaves the others ready, from the same repairs. */
  lemma ReadyAfterTake<E(!new)>(f: Field<E>, d: State<E>, y: nat, k: nat, t: State<E>)
    requires Links(d) && Ready(d, y) && d.missing[y] == {k} && k in d.repairs && d.repairs[k].ids == {y}
    requires t.repairs == d.repairs - {k} && t.missing == d.missing - {y}
    ensures y in ReadySet(d) && ReadySet(t) == ReadySet(d) - {y}
    ensures ReadySources(f, t) == ReadySources(f, d) - {y}
  {
    assert y in d.missing && y !in t.missing;
    hide Ready, Links, Create, SameAt;
    forall z | z != y
      ensures Ready(t, z) <==> Ready(d, z)
      ensures Ready(d, z) ==> SameAt(d, t, z)
    {
      ReadyElsewhere(d, y, k, t, z);
    }
    ReadySetWithout(d, t, y);
    ReadySourcesWithout(f, d, t, y);
  }

  lemma ReadySetWithout<E>(d: State<E>, t: State<E>, y: nat)
    requires y !in t.missing && y in d.missing && t.missing.Keys <= d.missing.Keys
    requires forall z | z != y :: (Ready(t, z) <==> Ready(d, z)) && (Ready(d, z) ==> SameAt(d, t, z))
    ensures ReadySet(t) == ReadySet(d) - {y}
  {
    hide Ready;
  }

  lemma ReadySourcesWithout<E(!new)>(f: Field<E>, d: State<E>, t: State<E>, y: nat)
    requires ReadySet(t) == ReadySet(d) - {y}
    requires forall z | z in ReadySet(t) :: SameAt(d, t, z)
    ensures ReadySources(f, t) == ReadySources(f, d) - {y}
  {
    hide Create;
  }

  lemma UsedAfterTake<E(!new)>(d: State<E>, y: nat, k: nat, t: State<E>)
    requires Links(d) && Ready(d, y) && d.missing[y] == {k} && k in d.repairs && d.repairs[k].ids == {y}
    requires t.repairs == d.repairs - {k} && t.missing == d.missing - {y}
    ensures k in UsedSet(d) && UsedSet(t) == UsedSet(d) - {k}
  {
    assert Min({y}) == y && Min({k}) == k;
    forall j | j in t.repairs
      ensures UsedUp(t, j) <==> UsedUp(d, j)
    {
      assert t.repairs[j] == d.repairs[j];
      if |t.repairs[j].ids| == 1 {
        var z := Min(t.repairs[j].ids);
        assert j in d.missing[z];
        assert z != y;
      }
    }
  }

  /** Nothing is ready from `from` on. */
  ghost predicate Idle<E>(d: State<E>, from: nat) {
    forall y | y in ReadySet(d) :: y < from
  }

  /** One round of the scan, when the next missing source is not ready. */
  lemma ScanSkips<E(!new)>(f: Field<E>, d: State<E>, from: nat, y: nat)
    requires y in Above(d, from) && y == Min(Above(d, from)) && !Ready(d, y)
    ensures Scan(f, d, from) == Scan(f, d, y + 1)
    ensures |Above(d, y + 1)| < |Above(d, from)|
    ensures Idle(d, y + 1) <==> Idle(d, from)
  {
    assert Above(d, y + 1) == Above(d, from) - {y};
    forall z | z in ReadySet(d)
      ensures z < y + 1 <==> z < from
    {
      assert z != y;
      if from <= z {
        assert z in Above(d, from);
      }
    }
  }

  /** One round of the scan, when the next missing source is ready. */
  lemma ScanUnfolds<E(!new)>(f: Field<E>, d: State<E>, from: nat, y: nat, k: nat)
    requires y in Above(d, from) && y == Min(Above(d, from)) && Ready(d, y) && k == Min(d.missing[y])
    ensures var taken := Take(d, y, k);
            var src := Create(f, d.repairs[k]);
            && Scan(f, d, from) == Scan(f, Add(f, taken, src), y + 1)
            && (src.id == y ==> Add(f, taken, src) == Store(Scan(f, Announce(taken, src), 0), src))
  {
  }

  lemma ScanIdle<E(!new)>(f: Field<E>, d: State<E>, from: nat)
    requires Idle(d, from)
    ensures Scan(f, d, from) == d
    decreases |Above(d, from)|
  {
    if Above(d, from) != {} {
      var y := Min(Above(d, from));
      assert y !in ReadySet(d);
      ScanSkips(f, d, from, y);
      ScanIdle(f, d, y + 1);
    }
  }

  lemma UsedNeedsReady<E>(d: State<E>)
    ensures UsedSet(d) != {} ==> ReadySet(d) != {}
  {
    if UsedSet(d) != {} {
      var k :| k in UsedSet(d);
      assert Min(d.repairs[k].ids) in ReadySet(d);
    }
  }

  lemma PeeledWhenIdle<E(!new)>(f: Field<E>, d: State<E>)
    requires ReadySet(d) == {}
    ensures Peeled(f, d, d)
  {
    UsedNeedsReady(d);
    assert ReadySources(f, d) == map[];
    hide ReadySet, UsedSet, ReadySources;
  }

  lemma SubtractTwice<K, V>(m: map<K, V>, x: K, a: set<K>, b: set<K>)
    requires x in b && a == b - {x}
    ensures m - {x} - a == m - b
  {
  }

  lemma AddTwice<K, V>(m: map<K, V>, x: K, v: V, a: map<K, V>, b: map<K, V>)
    requires x in b && b[x] == v && a == b - {x}
    ensures (m + a)[x := v] == m + b
  {
  }

  /** One ready source has been decoded, then all the others. */
  lemma PeeledStep<E(!new)>(f: Field<E>, d: State<E>, y: nat, k: nat, t: State<E>, u: State<E>, d': State<E>)
    requires Links(d) && Ready(d, y) && d.missing[y] == {k} && k in d.repairs && d.repairs[k].ids == {y}
    requires t.repairs == d.repairs - {k} && t.missing == d.missing - {y}
    requires t.sources == d.sources && t.decoded == d.decoded + 1 && Untouched(d, t)
    requires Peeled(f, t, u)
    requires d'.repairs == u.repairs && d'.missing == u.missing && d'.decoded == u.decoded && Untouched(u, d')
    requires d'.sources == u.sources[y := Create(f, d.repairs[k]).data]
    ensures Peeled(f, d, d')
    ensures ReadySet(d') == {}
  {
    ReadyAfterTake(f, d, y, k, t);
    UsedAfterTake(d, y, k, t);
    SubtractTwice(d.missing, y, ReadySet(t), ReadySet(d));
    SubtractTwice(d.repairs, k, UsedSet(t), UsedSet(d));
    AddTwice(d.sources, y, Create(f, d.repairs[k]).data, ReadySources(f, t), ReadySources(f, d));
    PeeledLeavesNothing(f, d, d');
  }

  lemma PeeledLeavesNothing<E(!new)>(f: Field<E>, d: State<E>, d': State<E>)
    requires d'.missing == d.missing - ReadySet(d) && d'.repairs == d.repairs - UsedSet(d)
    ensures ReadySet(d') == {}
  {
    forall z | z in d'.missing
      ensures !Ready(d', z)
    {
      if Ready(d', z) {
        assert Ready(d, z);
      }
    }
  }

  /** The scan decodes every ready source, wherever it starts, unless it meets none. */
  lemma {:induction false} ScanEffect<E(!new)>(f: Field<E>, d: State<E>, from: nat)
    requires Links(d) && !Idle(d, from)
    ensures Peeled(f, d, Scan(f, d, from))
    decreases |d.missing.Keys|, |Above(d, from)|
  {
    var z :| z in ReadySet(d) && from <= z;
    assert z in Above(d, from);
    var y := Min(Above(d, from));
    if Ready(d, y) {
      ScanReady(f, d, from, y);
    } else {
      ScanSkips(f, d, from, y);
      ScanEffect(f, d, y + 1);
    }
  }

  lemma ScanReady<E(!new)>(f: Field<E>, d: State<E>, from: nat, y: nat)
    requires Links(d) && y in Above(d, from) && y == Min(Above(d, from)) && Ready(d, y)
    ensures Peeled(f, d, Scan(f, d, from))
    decreases |d.missing.Keys|, 0
  {
    var k := ReadyHasOneRepair(d, y);
    var src := Create(f, d.repairs[k]);
    var taken := Take(d, y, k);
    var t := Announce(taken, src);
    TakeKeepsLinks(d, y, k);
    SubsetSize(t.missing.Keys, d.missing.Keys);
    SameLinks(taken, t);
    ScanPeels(f, t);
    var u := Scan(f, t, 0);
    var added := Store(u, src);
    ScanUnfolds(f, d, from, y, k);
    PeeledStep(f, d, y, k, t, u, added);
    ScanIdle(f, added, y + 1);
  }

  lemma ScanPeels<E(!new)>(f: Field<E>, d: State<E>)
    requires Links(d)
    ensures Peeled(f, d, Scan(f, d, 0))
    decreases |d.missing.Keys|, |Above(d, 0)| + 1
  {
    if Idle(d, 0) {
      ScanIdle(f, d, 0);
      PeeledWhenIdle(f, d);
    } else {
      ScanEffect(f, d, 0);
    }
  }

  // ----- unlinking the new source

  lemma UnlinkIds<E(!new)>(f: Field<E>, d: State<E>, src: Source<E>)
    requires Links(d) && src.id in d.missing
    ensures var u := Unlink(f, d, src);
            && u.missing == d.missing - {src.id} && u.sources == d.sources && u.repairs.Keys == d.repairs.Keys
            && forall k | k in u.repairs :: u.repairs[k].id == k && u.repairs[k].ids == d.repairs[k].ids - {src.id}
  {
  }

  lemma UnlinkKeepsLinks<E(!new)>(f: Field<E>, d: State<E>, src: Source<E>)
    requires Links(d) && Strippable(d, src.id)
    ensures Links(Unlink(f, d, src))
  {
    var u := Unlink(f, d, src);
    if src.id in d.missing {
      UnlinkIds(f, d, src);
      hide Unlink;
      forall k | k in u.repairs
        ensures u.repairs[k].ids != {}
      {
        NotEmptied(d.repairs[k].ids, src.id);
      }
      assert forall k :: k in u.repairs <==> k in d.repairs;
    }
  }

  lemma NotEmptied<T>(s: set<T>, x: T)
    requires s != {} && s != {x}
    ensures s - {x} != {}
  {
    if s - {x} == {} {
      assert s <= {x};
      SubsetSize(s, {x});
    }
  }

  /** The effect of `add_source_recursive` on everything but delivery. */
  lemma AddEffect<E(!new)>(f: Field<E>, d: State<E>, src: Source<E>)
    requires Links(d) && Strippable(d, src.id)
    ensures var u := Unlink(f, d, src);
            var d' := Add(f, d, src);
            && d'.missing == u.missing - ReadySet(u)
            && d'.repairs == u.repairs - UsedSet(u)
            && d'.sources == (d.sources + ReadySources(f, u))[src.id := src.data]
            && d'.decoded == d.decoded + |ReadySet(u)|
            && Untouched(d, d')
    ensures ReadySet(Add(f, d, src)) == {}
  {
    var u := Unlink(f, d, src);
    var t := Unlink(f, Announce(d, src), src);
    UnlinkKeepsLinks(f, d, src);
    hide Ready, Links, Announce, Scan, ReadySources, ReadySet, UsedSet, Strippable;
    SameLinks(u, t);
    SameLinksSameReady(f, u, t);
    ScanPeels(f, t);
    PeeledLeavesNothing(f, u, Add(f, d, src));
  }

  lemma SameLinksSameReady<E(!new)>(f: Field<E>, u: State<E>, t: State<E>)
    requires t.repairs == u.repairs && t.missing == u.missing && t.sources == u.sources
    ensures ReadySet(t) == ReadySet(u)
    ensures UsedSet(t) == UsedSet(u)
    ensures ReadySources(f, t) == ReadySources(f, u)
  {
    assert forall k | k in u.repairs :: UsedUp(t, k) == UsedUp(u, k);
  }

  /** What is left after the recursion is consistent. */
  lemma PeeledLinks<E>(u: State<E>, t: State<E>)
    requires Links(u) && t.missing == u.missing - ReadySet(u) && t.repairs == u.repairs - UsedSet(u)
    requires t.missing.Keys !! t.sources.Keys
    ensures Links(t)
  {
    forall k, s | k in t.repairs && s in t.repairs[k].ids
      ensures s in t.missing && k in t.missing[s]
    {
      if s in ReadySet(u) {
        var j := ReadyHasOneRepair(u, s);
        assert k in u.missing[s];
        assert UsedUp(u, k);
      }
    }
    forall s, k | s in t.missing && k in t.missing[s]
      ensures k in t.repairs && s in t.repairs[k].ids
    {
      if k in UsedSet(u) {
        var y := Min(u.repairs[k].ids);
        SingletonIs(u.repairs[k].ids, y);
      }
    }
  }

  lemma AddStillLinks<E(!new)>(f: Field<E>, d: State<E>, src: Source<E>)
    requires Links(d) && Strippable(d, src.id)
    ensures Links(Add(f, d, src))
  {
    hide *;
    var u, t := Unlink(f, d, src), Add(f, d, src);
    AddEffect(f, d, src);
    UnlinkKeepsLinks(f, d, src);
    ReadyKeys(f, u);
    UnlinkKeepsRest(f, d, src);
    KnownApart(u);
    PeeledLinks(u, t);
  }

  lemma ReadyKeys<E(!new)>(f: Field<E>, d: State<E>)
    ensures ReadySources(f, d).Keys == ReadySet(d)
  {
  }

  lemma KnownApart<E>(d: State<E>)
    requires Links(d)
    ensures d.missing.Keys !! d.sources.Keys
  {
  }

  lemma UnlinkKeepsRest<E(!new)>(f: Field<E>, d: State<E>, src: Source<E>)
    ensures var u := Unlink(f, d, src);
            && u.log == d.log && u.sources == d.sources && u.inOrder == d.inOrder && src.id !in u.missing
            && u.missing.Keys <= d.missing.Keys && u.firstMissing == d.firstMissing && u.ordered == d.ordered
  {
  }

  /** The same as identifiers. */
  lemma AddKeys<E(!new)>(f: Field<E>, d: State<E>, src: Source<E>)
    requires Links(d) && Strippable(d, src.id)
    ensures var u, a := Unlink(f, d, src), Add(f, d, src);
            && a.missing.Keys == u.missing.Keys - ReadySet(u) && a.repairs.Keys == u.repairs.Keys - UsedSet(u)
            && a.sources.Keys == d.sources.Keys + ReadySet(u) + {src.id} && a.lastId == d.lastId
  {
    hide *;
    var u, a := Unlink(f, d, src), Add(f, d, src);
    AddEffect(f, d, src);
    DecodedKeys(f, d, a, u, src);
    BoundStays(d, a);
  }

  lemma BoundStays<E>(d: State<E>, a: State<E>)
    requires Untouched(d, a)
    ensures a.lastId == d.lastId
  {
  }

  lemma DecodedKeys<E(!new)>(f: Field<E>, d: State<E>, a: State<E>, u: State<E>, src: Source<E>)
    requires a.missing == u.missing - ReadySet(u) && a.repairs == u.repairs - UsedSet(u)
    requires a.sources == (d.sources + ReadySources(f, u))[src.id := src.data]
    ensures a.missing.Keys == u.missing.Keys - ReadySet(u) && a.repairs.Keys == u.repairs.Keys - UsedSet(u)
    ensures a.sources.Keys == d.sources.Keys + ReadySet(u) + {src.id}
  {
    assert ReadySources(f, u).Keys == ReadySet(u);
    hide *;
  }
}
