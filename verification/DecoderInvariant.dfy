/** The invariant of the decoder that holds whatever the order of arrival, as long as repairs do not start
    below the last outdated source and a degree-one repair is alone with its source. */
module DecoderInvariant {
  import opened Wrappers
  import opened GaloisField
  import opened Ids
  import opened Symbols
  import opened DecoderModel
  import opened Peeling
  import opened Delivery

  ghost predicate RepairsRight<E(!new)>(f: Field<E>, truth: Truth<E>, d: State<E>) {
    forall k | k in d.repairs :: RepairOk(f, truth, d.repairs[k])
  }

  /** Nothing outdated is kept. */
  ghost predicate Young<E>(d: State<E>) {
    && (forall s | s in d.missing :: Low(d) <= s)
    && (forall s | s in d.sources :: Low(d) <= s)
  }

  ghost predicate Apart<E>(d: State<E>, pending: set<nat>) {
    pending !! d.missing.Keys && pending !! d.sources.Keys
  }

  ghost predicate Good<E(!new)>(f: Field<E>, truth: Truth<E>, d: State<E>, pending: set<nat>) {
    && Links(d)
    && Young(d)
    && d.missing.Keys <= truth.Keys
    && RepairsRight(f, truth, d)
    && SourcesTrue(truth, d)
    && LogTrue(truth, d.log)
    && Delivers(d, pending)
    && Apart(d, pending)
  }

  lemma GoodGives<E(!new)>(f: Field<E>, truth: Truth<E>, d: State<E>, pending: set<nat>)
    requires Good(f, truth, d, pending)
    ensures Links(d) && Young(d) && d.missing.Keys <= truth.Keys && RepairsRight(f, truth, d)
    ensures SourcesTrue(truth, d) && LogTrue(truth, d.log) && Delivers(d, pending)
  {
  }

  /** A source that has been stored, or is outdated, stays so. */
  ghost predicate Resolved<E>(d: State<E>, s: nat) {
    s in d.sources || s < Low(d)
  }

  ghost predicate StillResolved<E>(d: State<E>, d': State<E>) {
    forall s | Resolved(d, s) :: Resolved(d', s)
  }

  lemma ResolvedLonger<E>(a: State<E>, b: State<E>, c: State<E>)
    requires StillResolved(a, b) && StillResolved(b, c)
    ensures StillResolved(a, c)
  {
  }

  // ----- adding a source

  lemma UnlinkRight<E(!new)>(f: Field<E>, truth: Truth<E>, d: State<E>, src: Source<E>)
    requires f.Laws() && TruthOk(f, truth) && Links(d) && RepairsRight(f, truth, d)
    requires src.id in truth && truth[src.id] == src.data
    ensures RepairsRight(f, truth, Unlink(f, d, src))
  {
    if src.id in d.missing {
      forall k | k in d.repairs && k in d.missing[src.id]
        ensures RepairOk(f, truth, Strip(f, d.repairs[k], src))
      {
        StripOk(f, truth, d.repairs[k], src);
      }
    }
  }

  /** What holds between announcing a new source and scanning for others. */
  lemma AnnouncedGood<E(!new)>(f: Field<E>, truth: Truth<E>, d: State<E>, src: Source<E>, pending: set<nat>)
    requires f.Laws() && TruthOk(f, truth) && Good(f, truth, d, pending)
    requires src.id in truth && truth[src.id] == src.data
    requires src.id !in d.sources && src.id !in pending && Low(d) <= src.id && Strippable(d, src.id)
    ensures Good(f, truth, Unlink(f, Announce(d, src), src), pending + {src.id})
  {
    var a := Announce(d, src);
    AnnounceDelivers(truth, d, src, pending);
    SameLinks(d, a);
    UnlinkRight(f, truth, a, src);
    UnlinkKeepsLinks(f, a, src);
    UnlinkKeepsDelivery(f, truth, a, src, pending + {src.id});
  }

  lemma UnlinkKeepsDelivery<E(!new)>(f: Field<E>, truth: Truth<E>, d: State<E>, src: Source<E>, pending: set<nat>)
    requires Delivers(d, pending) && SourcesTrue(truth, d) && Young(d)
    ensures var u := Unlink(f, d, src);
            Delivers(u, pending) && SourcesTrue(truth, u) && Young(u)
  {
  }

  lemma StoredGood<E(!new)>(f: Field<E>, truth: Truth<E>, d: State<E>, src: Source<E>, pending: set<nat>)
    requires Good(f, truth, d, pending + {src.id}) && src.id !in pending
    requires src.id in truth && truth[src.id] == src.data && Low(d) <= src.id
    ensures Good(f, truth, Store(d, src), pending)
  {
    StoreDelivers(d, src, pending);
  }

  lemma TakenGood<E(!new)>(f: Field<E>, truth: Truth<E>, d: State<E>, y: nat, pending: set<nat>) returns (k: nat)
    requires f.Laws() && TruthOk(f, truth) && Good(f, truth, d, pending) && Ready(d, y)
    ensures k == Min(d.missing[y]) && k in d.repairs && d.repairs[k].ids == {y}
    ensures y in truth && Create(f, d.repairs[k]) == Source(y, truth[y])
    ensures y !in d.sources && y !in pending && Low(d) <= y
    ensures Good(f, truth, Take(d, y, k), pending) && Strippable(Take(d, y, k), y)
  {
    k := ReadyHasOneRepair(d, y);
    CreateOk(f, truth, d.repairs[k], y);
    TakeKeepsLinks(d, y, k);
  }

  /** The scan keeps the invariant, at every depth of the recursion. */
  lemma {:induction false} ScanGood<E(!new)>(f: Field<E>, truth: Truth<E>, d: State<E>, from: nat, pending: set<nat>)
    requires f.Laws() && TruthOk(f, truth) && Good(f, truth, d, pending)
    ensures Good(f, truth, Scan(f, d, from), pending)
    ensures Low(Scan(f, d, from)) == Low(d)
    decreases |d.missing.Keys|, 1, |Above(d, from)|
  {
    hide Good, Create;
    if Above(d, from) != {} {
      var y := Min(Above(d, from));
      if Ready(d, y) {
        var k := Min(d.missing[y]);
        ScanUnfolds(f, d, from, y, k);
        var added := DecodeGood(f, truth, d, y, pending);
        ScanGood(f, truth, added, y + 1, pending);
      } else {
        ScanSkips(f, d, from, y);
        ScanGood(f, truth, d, y + 1, pending);
      }
    }
  }

  /** Decoding one ready source, and what this triggers. */
  lemma {:induction false} DecodeGood<E(!new)>(f: Field<E>, truth: Truth<E>, d: State<E>, y: nat, pending: set<nat>)
    returns (added: State<E>)
    requires f.Laws() && TruthOk(f, truth) && Good(f, truth, d, pending) && Ready(d, y)
    ensures added == Add(f, Take(d, y, Min(d.missing[y])), Create(f, d.repairs[Min(d.missing[y])]))
    ensures Good(f, truth, added, pending)
    ensures Low(added) == Low(d)
    ensures |added.missing.Keys| < |d.missing.Keys|
    decreases |d.missing.Keys|, 0, 0
  {
    hide Good, Create;
    var k := TakenGood(f, truth, d, y, pending);
    var taken := Take(d, y, k);
    var src := Create(f, d.repairs[k]);
    SubsetSize(taken.missing.Keys, d.missing.Keys);
    AddGood(f, truth, taken, src, pending);
    added := Add(f, taken, src);
    SubsetSize(added.missing.Keys, taken.missing.Keys);
  }

  /** So does `add_source_recursive`, given a new and true source that no degree-one repair encodes. */
  lemma {:induction false} AddGood<E(!new)>(f: Field<E>, truth: Truth<E>, d: State<E>, src: Source<E>,
          pending: set<nat>)
    requires f.Laws() && TruthOk(f, truth) && Good(f, truth, d, pending)
    requires src.id in truth && truth[src.id] == src.data
    requires src.id !in d.sources && src.id !in pending && Low(d) <= src.id && Strippable(d, src.id)
    ensures Good(f, truth, Add(f, d, src), pending)
    ensures Low(Add(f, d, src)) == Low(d)
    decreases |d.missing.Keys|, 2, 0
  {
    hide Good;
    AnnouncedGood(f, truth, d, src, pending);
    var u := Unlink(f, Announce(d, src), src);
    SubsetSize(u.missing.Keys, d.missing.Keys);
    ScanGood(f, truth, u, 0, pending + {src.id});
    StoredGood(f, truth, Scan(f, u, 0), src, pending);
  }

  // ----- full decoding

  lemma GiveUpLinks<E>(d: State<E>)
    requires Links(d) && |d.repairs.Keys| > 0
    ensures Links(GiveUp(d))
  {
  }

  lemma GiveUpKeeps<E(!new)>(f: Field<E>, truth: Truth<E>, d: State<E>)
    requires |d.repairs.Keys| > 0
    ensures RepairsRight(f, truth, d) ==> RepairsRight(f, truth, GiveUp(d))
    ensures SourcesTrue(truth, d) ==> SourcesTrue(truth, GiveUp(d))
    ensures Delivers(d, {}) ==> Delivers(GiveUp(d), {})
    ensures Young(d) ==> Young(GiveUp(d))
    ensures GiveUp(d).missing.Keys == d.missing.Keys && GiveUp(d).sources == d.sources && GiveUp(d).log == d.log
    ensures Low(GiveUp(d)) == Low(d)
    ensures |GiveUp(d).repairs.Keys| == |d.repairs.Keys| - 1
  {
    hide RepairOk, LogDistinct, LogIncreasing, LogBelow;
    assert GiveUp(d).repairs.Keys == d.repairs.Keys - {Max(d.repairs.Keys)};
  }

  lemma GiveUpGood<E(!new)>(f: Field<E>, truth: Truth<E>, d: State<E>)
    requires Good(f, truth, d, {}) && |d.repairs.Keys| > 0
    ensures Good(f, truth, GiveUp(d), {}) && StillResolved(d, GiveUp(d))
    ensures GiveUp(d).missing.Keys == d.missing.Keys && GiveUp(d).sources == d.sources && Low(GiveUp(d)) == Low(d)
    ensures |GiveUp(d).repairs.Keys| == |d.repairs.Keys| - 1
  {
    hide Links, RepairsRight, SourcesTrue, LogTrue, Delivers, Young, GiveUp;
    GiveUpLinks(d);
    GiveUpKeeps(f, truth, d);
  }

  // ----- outdating

  lemma DropRepairsLinks<E(!new)>(f: Field<E>, d: State<E>, id: nat)
    requires Links(d)
    ensures Links(DropRepairs(d, id))
  {
  }

  lemma EraseBelowLinks<E(!new)>(d: State<E>, id: nat)
    requires Links(d) && forall k, s | k in d.repairs && s in d.repairs[k].ids :: id <= s
    ensures Links(EraseBelow(d, id))
  {
  }

  lemma OutdatingLinks<E(!new)>(f: Field<E>, d: State<E>, id: nat)
    requires Links(d)
    ensures Links(DropOutdated(d, id))
  {
    var dropped := DropRepairs(d, id);
    DropRepairsLinks(f, d, id);
    var released := if d.inOrder then Release(dropped, id) else dropped;
    SameLinks(dropped, released);
    forall k, x | k in released.repairs && x in released.repairs[k].ids
      ensures id <= x
    {
      assert k !in Outdated(d, id);
    }
    hide Release;
    EraseBelowLinks(released, id);
  }

  lemma OutdatingIs<E>(d: State<E>, id: nat)
    ensures var c := DropOutdated(d, id);
            && c.repairs == d.repairs - Outdated(d, id) && c.lastId == Some(id)
            && c.missing.Keys == (set m | m in d.missing && id <= m)
            && c.sources.Keys == (set m | m in d.sources && id <= m)
  {
  }

  lemma DropRepairsGood<E(!new)>(f: Field<E>, truth: Truth<E>, d: State<E>, id: nat)
    requires Good(f, truth, d, {}) && Low(d) <= id
    ensures Links(DropRepairs(d, id)) && RepairsRight(f, truth, DropRepairs(d, id))
    ensures forall k, s | k in DropRepairs(d, id).repairs && s in d.repairs[k].ids :: id <= s
  {
    DropRepairsLinks(f, d, id);
  }

  lemma DropOutdatedLinks<E(!new)>(f: Field<E>, truth: Truth<E>, d: State<E>, id: nat)
    requires Good(f, truth, d, {}) && Low(d) <= id
    ensures var r := DropOutdated(d, id);
            Links(r) && Young(r) && RepairsRight(f, truth, r) && SourcesTrue(truth, r) && r.lastId == Some(id)
  {
    DropRepairsGood(f, truth, d, id);
    var dropped := DropRepairs(d, id);
    var released := if d.inOrder then Release(dropped, id) else dropped;
    SameLinks(dropped, released);
    EraseBelowLinks(released, id);
  }

  lemma DropOutdatedDelivers<E(!new)>(truth: Truth<E>, d: State<E>, id: nat)
    requires Delivers(d, {}) && SourcesTrue(truth, d) && LogTrue(truth, d.log) && Low(d) <= id
    ensures Delivers(DropOutdated(d, id), {}) && LogTrue(truth, DropOutdated(d, id).log)
    ensures StillResolved(d, DropOutdated(d, id))
  {
    if d.inOrder {
      var dropped := DropRepairs(d, id);
      var plain := dropped.(lastId := d.lastId);
      ReleaseInOrder(truth, plain, id);
      assert plain.(lastId := Some(id)) == dropped;
    }
  }

  lemma DropOutdatedGood<E(!new)>(f: Field<E>, truth: Truth<E>, d: State<E>, id: nat)
    requires Good(f, truth, d, {}) && Low(d) <= id
    ensures Good(f, truth, DropOutdated(d, id), {}) && StillResolved(d, DropOutdated(d, id))
    ensures DropOutdated(d, id).lastId == Some(id)
  {
    DropOutdatedLinks(f, truth, d, id);
    DropOutdatedDelivers(truth, d, id);
    hide DropOutdated;
  }
}
